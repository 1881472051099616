/**
 What a JSON value means for a message type, defined on parse trees, and the proof that the byte
 decoder computes exactly that: it accepts a text if and only if the text is a JSON object with a
 meaning, and gives that meaning. Independence of the order of members follows.
 */
module Meanings {
  import opened Bytes
  import opened Text
  import opened Numbers
  import opened Cursor
  import opened Json
  import opened Schema
  import opened Generated
  import opened Acts

  // ---------------------------------------------------------------- meaning of a tree

  predicate IsPlainInteger(n: Numeral) {
    n.frac.None? && n.exp.None?
  }

  /** A number for a signed field. Oversized integer parts are refused before any fallback. */
  function Signed(fl: Floats, n: Numeral): Option<int>
    requires ValidNum(n)
  {
    var u: int := ValueFrom(0, n.whole);
    var v := if n.neg then -u else u;
    if !IsInt64(v) then None
    else if IsPlainInteger(n) then Some(v)
    else fl.signed(NumTo(n, []))
  }

  function Unsigned(fl: Floats, n: Numeral): Option<int>
    requires ValidNum(n)
  {
    if n.neg then fl.unsigned(NumTo(n, []))
    else if !IsUint64(ValueFrom(0, n.whole)) then None
    else if IsPlainInteger(n) then Some(ValueFrom(0, n.whole))
    else fl.unsigned(NumTo(n, []))
  }

  function SignedOf(fl: Floats, v: Tree): Option<int>
    requires Valid(v)
  {
    match v
    case Number(n) => Signed(fl, n)
    case Str(cs) => OrFloat(ParseInt64(Meaning(cs)), fl.signed(Meaning(cs)))
    case _ => None
  }

  function UnsignedOf(fl: Floats, v: Tree): Option<int>
    requires Valid(v)
  {
    match v
    case Number(n) => Unsigned(fl, n)
    case Str(cs) => OrFloat(ParseUint64(Meaning(cs)), fl.unsigned(Meaning(cs)))
    case _ => None
  }

  function NumItem(v: Option<int>, lo: int, hi: int): Option<Item> {
    if v.Some? && lo <= v.value <= hi then Some(Known(Num(v.value))) else None
  }

  function AnyNum(v: Option<int>): Option<Item> {
    if v.Some? then Some(Known(Num(v.value))) else None
  }

  function EnumOf(env: Env, values: seq<EnumValue>, v: Tree): Option<Item>
    requires Valid(v)
  {
    if v.Str? then
      match FindName(values, Meaning(v.chars))
      case Some(n) => Some(Known(Num(n)))
      case None => if env.discard then Some(Unknown) else None
    else NumItem(SignedOf(env.floats, v), -MAX_INT32 - 1, MAX_INT32)
  }

  function ScalarOf(env: Env, kind: Kind, v: Tree): Option<Item>
    requires Valid(v) && !kind.MessageKind?
  {
    match kind
    case StringKind => if v.Str? then Some(Known(Value.Str(Meaning(v.chars)))) else None
    case BoolKind =>
      if v == Lit(TRUE) then Some(Known(Bool(true)))
      else if v == Lit(FALSE) then Some(Known(Bool(false)))
      else None
    case Int32Kind => NumItem(SignedOf(env.floats, v), -MAX_INT32 - 1, MAX_INT32)
    case Int64Kind => AnyNum(SignedOf(env.floats, v))
    case Uint32Kind => NumItem(UnsignedOf(env.floats, v), 0, MAX_UINT32)
    case Uint64Kind => AnyNum(UnsignedOf(env.floats, v))
    case EnumKind(values) => EnumOf(env, values, v)
  }

  function ItemOf(env: Env, kind: Kind, v: Tree, depth: nat): Option<Item>
    requires Valid(v)
    decreases v, 1
  {
    match kind
    case MessageKind(t) =>
      (match MessageOf(env, t, v, depth)
       case None => None
       case Some(m) => Some(Known(Sub(m))))
    case _ => ScalarOf(env, kind, v)
  }

  /** An element in front of the rest of its list, from which unknown enum names are dropped. */
  function Joined(item: Option<Item>, tail: Option<seq<Value>>): Option<seq<Value>> {
    if item.None? || tail.None? then None
    else Some(if item.value.Known? then [item.value.v] + tail.value else tail.value)
  }

  function ListOf(env: Env, kind: Kind, e: Elems, depth: nat): Option<seq<Value>>
    requires ValidElems(e)
    decreases e, 2
  {
    if kind.MessageKind? && e.v == Lit(NULL) then None
    else Joined(ItemOf(env, kind, e.v, depth), if e.MoreElems? then ListOf(env, kind, e.tail, depth) else Some([]))
  }

  function PairsOf(ms: Members, m: map<bytes, bytes>): Option<map<bytes, bytes>>
    requires ValidMembers(ms)
    decreases ms
  {
    var key := Meaning(ms.head.key);
    if !ms.v.Str? || key in m then None
    else
      assert Valid(ms.v);
      var m' := m[key := Meaning(ms.v.chars)];
      if ms.MoreMembers? then PairsOf(ms.tail, m') else Some(m')
  }

  function PayloadOf(env: Env, f: Field, v: Tree, depth: nat): (r: Option<Payload>)
    requires Valid(v)
    ensures r.Some? && f.card.Member? ==> r.value.Null? || r.value.Single?
    decreases v, 2
  {
    if v == Lit(NULL) then Some(Null)
    else
      match f.card
      case StringMap =>
        if depth + 1 > MAX_DEPTH then None
        else if v.EmptyObj? then Some(Map(map[]))
        else if v.Obj? then
          (match PairsOf(v.members, map[]) case None => None case Some(m) => Some(Map(m)))
        else None
      case Repeated =>
        if depth + 1 > MAX_DEPTH then None
        else if v.EmptyArr? then Some(List([]))
        else if v.Arr? then
          (match ListOf(env, f.kind, v.elems, depth + 1) case None => None case Some(vs) => Some(List(vs)))
        else None
      case _ =>
        match ItemOf(env, f.kind, v, depth)
        case None => None
        case Some(item) => Some(Single(item))
  }

  /** The act of one member: an unknown key is passed over when unknown keys are discarded. */
  function MemberOf(env: Env, t: nat, key: bytes, v: Tree, depth: nat): (r: Option<Act>)
    requires Valid(v)
    ensures r.Some? ==> Typed(env.schema(t), r.value)
    decreases v, 3
  {
    match Find(env.schema(t), key)
    case None => if env.discard && FitsDepth(v, depth) then Some(Skip) else None
    case Some(i) =>
      match PayloadOf(env, env.schema(t).fields[i], v, depth)
      case None => None
      case Some(p) => Some(Assign(i, p))
  }

  function ActsOf(env: Env, t: nat, ms: Members, depth: nat): (r: Option<seq<Act>>)
    requires ValidMembers(ms)
    ensures r.Some? ==> forall a :: a in r.value ==> Typed(env.schema(t), a)
    decreases ms, 4
  {
    match MemberOf(env, t, Meaning(ms.head.key), ms.v, depth)
    case None => None
    case Some(a) =>
      if ms.MoreMembers? then
        match ActsOf(env, t, ms.tail, depth)
        case None => None
        case Some(acts) => Some([a] + acts)
      else Some([a])
  }

  function MessageOf(env: Env, t: nat, v: Tree, depth: nat): Option<Message>
    requires Valid(v)
    decreases v, 0
  {
    if depth + 1 > MAX_DEPTH then None
    else if v.EmptyObj? then Some(Fresh(env.schema(t)))
    else if v.Obj? then
      match ActsOf(env, t, v.members, depth + 1)
      case None => None
      case Some(acts) => Run(env.schema(t), acts, {}, {}, Fresh(env.schema(t)))
    else None
  }

  // ---------------------------------------------------------------- scalars

  lemma {:induction false} DigitLoopStops(d: bytes, t: bytes, u: nat, limit: nat)
    requires AllDigits(d) && u <= limit && limit >= 10
    requires t != [] && !IsDigit(t[0]) && !IsTerminator(t[0])
    ensures DigitLoop(d + t, u, limit) == if ValueFrom(u, d) <= limit then NotSimple else OutOfRange
  {
    if d == [] {
      assert d + t == t;
    } else {
      var digit: nat := d[0] - ZERO;
      assert (d + t)[1..] == d[1..] + t;
      if u * 10 + digit > limit {
        assert ValueFrom(u, d) >= u * 10 + digit;
      } else {
        DigitLoopStops(d[1..], t, u * 10 + digit, limit);
      }
    }
  }

  lemma {:induction false} ParseDigitsStops(d: bytes, t: bytes, u: nat)
    requires AllDigits(d) && u <= MAX_UINT64 && ValueFrom(u, d) <= MAX_UINT64
    requires t != [] && !IsDigit(t[0])
    ensures ParseDigits(d + t, u) == Syntax
  {
    if d == [] {
      assert d + t == t;
    } else {
      assert (d + t)[1..] == d[1..] + t;
      ParseDigitsStops(d[1..], t, u * 10 + (d[0] - ZERO));
    }
  }

  /** The text behind the integer part. */
  function TailTo(n: Numeral, k: bytes): bytes {
    FracTo(n.frac, ExpTo(n.exp, k))
  }

  lemma TailFacts(n: Numeral, k: bytes)
    requires ValidNum(n) && Ended(k)
    ensures TailTo(n, k) == [] || !IsDigit(TailTo(n, k)[0])
    ensures IsPlainInteger(n) ==> TailTo(n, k) == k
    ensures !IsPlainInteger(n) ==> TailTo(n, k) != [] && !IsTerminator(TailTo(n, k)[0])
  {
  }

  lemma WholeLoop(n: Numeral, k: bytes, limit: nat)
    requires ValidNum(n) && Ended(k) && limit >= 10
    ensures LeadsWithDigit(n.whole + TailTo(n, k))
    ensures var v := ValueFrom(0, n.whole);
            DigitLoop(n.whole + TailTo(n, k), 0, limit) ==
            if v > limit then OutOfRange else if IsPlainInteger(n) then Simple(v, k) else NotSimple
  {
    var b := TailTo(n, k);
    TailFacts(n, k);
    hide TailTo;
    if IsPlainInteger(n) {
      DigitLoopExact(n.whole, k, 0, limit);
    } else {
      DigitLoopStops(n.whole, b, 0, limit);
    }
    var t := n.whole + b;
    assert t[0] == n.whole[0];
    if |n.whole| == 1 && |t| > 1 {
      assert t[1] == b[0];
    }
  }

  lemma TokenReads(n: Numeral, k: bytes)
    requires ValidNum(n) && Ended(k)
    ensures ReadNumberLike(NumTo(n, k)) == Ok(NumTo(n, []), k)
    ensures var s := NumTo(n, k); SkipWs(s) == s && s != [] && s[0] != QUOTE
  {
    hide NumberEnd;
    var s := NumTo(n, k);
    NumToAppend(n, k);
    NumberComplete(n, k);
    NumStarts(n, k);
    SkipWsStop(s);
    assert s[..|s| - |k|] == NumTo(n, []);
  }

  lemma NumStarts(n: Numeral, k: bytes)
    requires ValidNum(n)
    ensures var s := NumTo(n, k); s != [] && (s[0] == MINUS || IsDigit(s[0]))
  {
  }

  lemma WholeText(n: Numeral, k: bytes)
    ensures NumTo(n, k) == if n.neg then [MINUS] + (n.whole + TailTo(n, k)) else n.whole + TailTo(n, k)
    ensures n.neg ==> NumTo(n, k)[1..] == n.whole + TailTo(n, k)
  {
  }

  /** Only plain integers are integers to strconv; other numbers are a syntax error. */
  lemma FractionIsSyntax(n: Numeral)
    requires ValidNum(n) && !IsPlainInteger(n) && ValueFrom(0, n.whole) <= MAX_UINT64
    ensures ParseInt64(NumTo(n, [])) == Syntax
    ensures ParseUint64(NumTo(n, [])) == Syntax
  {
    var b := TailTo(n, []);
    TailFacts(n, []);
    WholeText(n, []);
    NumStarts(n, []);
    hide TailTo, NumTo;
    ParseDigitsStops(n.whole, b, 0);
    var s := NumTo(n, []);
    if !n.neg {
      assert s[0] == n.whole[0];
    }
  }

  lemma SignedReads(fl: Floats, n: Numeral, k: bytes)
    requires ValidNum(n) && Ended(k)
    ensures ReadInt64(fl, NumTo(n, k)) == Give(Signed(fl, n), k)
  {
    hide DigitLoop, ReadNumberLike, ParseInt64, NumTo, TailTo, LeadsWithDigit;
    var s := NumTo(n, k);
    var limit := if n.neg then MAX_INT64 + 1 else MAX_INT64;
    WholeLoop(n, k, limit);
    WholeText(n, k);
    TokenReads(n, k);
    assert !n.neg ==> s[0] == n.whole[0];
    if !IsPlainInteger(n) && ValueFrom(0, n.whole) <= limit {
      FractionIsSyntax(n);
    }
  }

  lemma NegativeIsSyntax(n: Numeral)
    requires ValidNum(n) && n.neg
    ensures ParseUint64(NumTo(n, [])) == Syntax
  {
    WholeText(n, []);
    hide NumTo;
  }

  lemma UnsignedReads(fl: Floats, n: Numeral, k: bytes)
    requires ValidNum(n) && Ended(k)
    ensures ReadUint64(fl, NumTo(n, k)) == Give(Unsigned(fl, n), k)
  {
    WholeLoop(n, k, MAX_UINT64);
    WholeText(n, k);
    TokenReads(n, k);
    if n.neg {
      NegativeIsSyntax(n);
    }
    hide DigitLoop, ReadNumberLike, ParseUint64, NumTo, TailTo, LeadsWithDigit;
    var s := NumTo(n, k);
    assert !n.neg ==> s[0] == n.whole[0];
    if !n.neg && !IsPlainInteger(n) && ValueFrom(0, n.whole) <= MAX_UINT64 {
      FractionIsSyntax(n);
    }
  }

  /** The first byte of a value tells what it is. */
  function HeadOf(v: Tree): set<byte> {
    match v
    case Lit(_) => {TRUE[0], FALSE[0], NULL[0]}
    case Number(_) => {MINUS, 48, 49, 50, 51, 52, 53, 54, 55, 56, 57}
    case Str(_) => {QUOTE}
    case EmptyArr(_) => {LBRACKET}
    case Arr(_) => {LBRACKET}
    case EmptyObj(_) => {LBRACE}
    case Obj(_) => {LBRACE}
  }

  lemma TreeStarts(w: bytes, v: Tree, k: bytes)
    requires AllWs(w) && Valid(v)
    ensures var u := TreeTo(v, k); u != [] && u[0] in HeadOf(v) && SkipWs(w + u) == u && SkipWs(u) == u
  {
    var u := TreeTo(v, k);
    if v.Number? {
      NumStarts(v.num, k);
    }
    SkipWsOver(w, u);
    SkipWsStop(u);
  }

  /** Readers look past leading white space, so they may be started behind it. */
  lemma SkipLeading(fl: Floats, s: bytes)
    ensures ReadString(s) == ReadString(SkipWs(s))
    ensures ReadInt64(fl, s) == ReadInt64(fl, SkipWs(s))
    ensures ReadUint64(fl, s) == ReadUint64(fl, SkipWs(s))
    ensures ReadBool(s) == ReadBool(SkipWs(s))
    ensures ReadNull(s) == ReadNull(SkipWs(s))
  {
    hide ScanString, Unescape, SimpleInt64, SimpleUint64, NumberEnd, StartsWith, ParseInt64, ParseUint64;
    SkipWsStop(SkipWs(s));
  }

  /** No number, no string: nothing an integer reader accepts. */
  lemma NotANumber(fl: Floats, s: bytes)
    requires s != [] && !IsWs(s[0]) && s[0] != QUOTE && s[0] != MINUS && !IsDigit(s[0])
    ensures ReadInt64(fl, s).Err? && ReadUint64(fl, s).Err? && ReadString(s).Err?
  {
    SkipWsStop(s);
  }

  lemma SignedIs(fl: Floats, w: bytes, v: Tree, k: bytes)
    requires AllWs(w) && Valid(v) && Ended(k)
    ensures ReadInt64(fl, w + TreeTo(v, k)) == Give(SignedOf(fl, v), k)
    ensures ReadUint64(fl, w + TreeTo(v, k)) == Give(UnsignedOf(fl, v), k)
  {
    var u := TreeTo(v, k);
    TreeStarts(w, v, k);
    SkipLeading(fl, w + u);
    match v
    case Number(n) => SignedReads(fl, n, k); UnsignedReads(fl, n, k);
    case Str(cs) => QuotedIs(fl, cs, k);
    case _ => NotANumber(fl, u);
  }

  lemma QuotedIs(fl: Floats, cs: seq<Char>, k: bytes)
    requires ValidChars(cs)
    ensures ReadInt64(fl, StringTo(cs, k)) == Give(OrFloat(ParseInt64(Meaning(cs)), fl.signed(Meaning(cs))), k)
    ensures ReadUint64(fl, StringTo(cs, k)) == Give(OrFloat(ParseUint64(Meaning(cs)), fl.unsigned(Meaning(cs))), k)
  {
    hide ReadString, ParseInt64, ParseUint64, Meaning;
    var u := StringTo(cs, k);
    StringComplete([], cs, k);
    assert [] + u == u;
    SkipWsStop(u);
  }

  lemma StringIs(w: bytes, v: Tree, k: bytes)
    requires AllWs(w) && Valid(v)
    ensures ReadString(w + TreeTo(v, k)) == if v.Str? then Ok(Meaning(v.chars), k) else Err
  {
    TreeStarts(w, v, k);
    if v.Str? {
      StringComplete(w, v.chars, k);
    }
  }

  lemma LiteralIs(w: bytes, v: Tree, k: bytes)
    requires AllWs(w) && Valid(v)
    ensures ReadNull(w + TreeTo(v, k)) == if v == Lit(NULL) then Some(k) else None
    ensures ReadBool(w + TreeTo(v, k)) ==
            if v == Lit(TRUE) then Ok(true, k) else if v == Lit(FALSE) then Ok(false, k) else Err
  {
    var u := TreeTo(v, k);
    TreeStarts(w, v, k);
    StartsByHead(u);
    if v.Lit? {
      StartsWithAppend(v.text, k);
    }
  }

  lemma StartsByHead(u: bytes)
    requires u != []
    ensures StartsWith(u, TRUE) ==> u[0] == TRUE[0]
    ensures StartsWith(u, FALSE) ==> u[0] == FALSE[0]
    ensures StartsWith(u, NULL) ==> u[0] == NULL[0]
  {
    assert StartsWith(u, TRUE) ==> u[..4][0] == TRUE[0];
    assert StartsWith(u, FALSE) ==> u[..5][0] == FALSE[0];
    assert StartsWith(u, NULL) ==> u[..4][0] == NULL[0];
  }

  function Lift<T>(v: Option<T>, k: bytes): Read<T> {
    match v case None => Err case Some(x) => Ok(x, k)
  }

  lemma LiftCases<T>(v: Option<T>, k: bytes)
    ensures Lift(v, k) == if v.Some? then Ok(v.value, k) else Err
  {
  }

  lemma ScalarIs(env: Env, kind: Kind, w: bytes, v: Tree, k: bytes)
    requires AllWs(w) && Valid(v) && Ended(k) && !kind.MessageKind?
    ensures ReadScalar(env, kind, w + TreeTo(v, k)) == Lift(ScalarOf(env, kind, v), k)
  {
    hide ReadInt64, ReadUint64, ReadString, ReadBool, TreeTo, SignedOf, UnsignedOf;
    var s := w + TreeTo(v, k);
    SignedIs(env.floats, w, v, k);
    StringIs(w, v, k);
    LiteralIs(w, v, k);
    TreeStarts(w, v, k);
  }

  // ---------------------------------------------------------------- values, members and messages

  lemma {:induction false} ItemIs(env: Env, kind: Kind, w: bytes, v: Tree, k: bytes, depth: nat)
    requires AllWs(w) && Valid(v) && Ended(k)
    ensures ReadItem(env, false, kind, w + TreeTo(v, k), depth) == Lift(ItemOf(env, kind, v, depth), k)
    decreases v, 1
  {
    hide TreeTo, ScalarOf, ReadScalar, MessageOf, SlowMessage;
    if kind.MessageKind? {
      MessageIs(env, kind.message, w, v, k, depth);
    } else {
      ScalarIs(env, kind, w, v, k);
    }
  }

  /** The list loop behind an element. */
  function AfterItem(env: Env, kind: Kind, r: Read<Item>, depth: nat): Read<seq<Value>> {
    match r
    case Err => Err
    case Ok(item, v) =>
      var (vs, rest) :- ReadList(env, false, kind, v, false, depth);
      Ok(if item.Known? then [item.v] + vs else vs, rest)
  }

  /** One turn of the list loop. */
  lemma ListTurn(env: Env, kind: Kind, s: bytes, first: bool, u: bytes, depth: nat)
    requires NextElem(s, first) == Element(u)
    ensures ReadList(env, false, kind, s, first, depth) ==
            if kind.MessageKind? && ReadNull(u).Some? then Err
            else AfterItem(env, kind, ReadItem(env, false, kind, u, depth), depth)
  {
    hide ReadItem, ReadNull, NextElem;
  }

  lemma ListHeadIs(env: Env, kind: Kind, w: bytes, first: bool, e: Elems, close: bytes, depth: nat)
    requires AllWs(w) && ValidElems(e) && Valid(e.v)
    ensures var u := TreeTo(e.v, e.post + (if e.MoreElems? then MoreElemsTo(false, e.tail, close) else close));
            ReadList(env, false, kind, w + MoreElemsTo(first, e, close), first, depth) ==
            if kind.MessageKind? && e.v == Lit(NULL) then Err
            else AfterItem(env, kind, ReadItem(env, false, kind, u, depth), depth)
  {
    var more := if e.MoreElems? then MoreElemsTo(false, e.tail, close) else close;
    var u := TreeTo(e.v, e.post + more);
    assert [] + u == u;
    hide TreeTo, ElemsTo, MoreElemsTo, Valid, ValidElems, ReadItem, NextElem, ReadNull, ReadBool, ReadList, AfterItem;
    ElemIs(w, first, e, close);
    ListTurn(env, kind, w + MoreElemsTo(first, e, close), first, u, depth);
    LiteralIs([], e.v, e.post + more);
  }

  lemma ListUnfolds(env: Env, kind: Kind, e: Elems, depth: nat)
    requires ValidElems(e)
    ensures ListOf(env, kind, e, depth) ==
            if kind.MessageKind? && e.v == Lit(NULL) then None
            else Joined(ItemOf(env, kind, e.v, depth), if e.MoreElems? then ListOf(env, kind, e.tail, depth) else Some([]))
  {
  }

  /** The loop behind an element joins it to what it makes of the rest. */
  lemma LoopJoins(env: Env, kind: Kind, item: Option<Item>, tail: Option<seq<Value>>, s: bytes, k: bytes, depth: nat)
    requires ReadList(env, false, kind, s, false, depth) == Lift(tail, k)
    ensures AfterItem(env, kind, Lift(item, s), depth) == Lift(Joined(item, tail), k)
  {
    hide ReadList;
  }

  lemma FirstElem(e: Elems, more: bytes)
    requires ValidElems(e) && Ended(more)
    ensures Valid(e.v) && AllWs(e.post) && AllWs([]) && Ended(e.post + more) && (e.MoreElems? ==> ValidElems(e.tail))
    ensures [] + TreeTo(e.v, e.post + more) == TreeTo(e.v, e.post + more)
  {
    EndedTail(e.post, more);
  }

  lemma MoreEnds(e: Elems, k: bytes)
    ensures Ended(if e.MoreElems? then MoreElemsTo(false, e.tail, [RBRACKET] + k) else [RBRACKET] + k)
  {
  }

  lemma {:induction false} ListIs(env: Env, kind: Kind, w: bytes, first: bool, e: Elems, k: bytes, depth: nat)
    requires AllWs(w) && ValidElems(e)
    ensures ReadList(env, false, kind, w + MoreElemsTo(first, e, [RBRACKET] + k), first, depth) == Lift(ListOf(env, kind, e, depth), k)
    decreases e, 3
  {
    hide *;
    var close := [RBRACKET] + k;
    var more := if e.MoreElems? then MoreElemsTo(false, e.tail, close) else close;
    MoreEnds(e, k);
    FirstElem(e, more);
    ListHeadIs(env, kind, w, first, e, close, depth);
    ItemIs(env, kind, [], e.v, e.post + more, depth);
    ListRestIs(env, kind, e, k, depth);
    LoopJoins(env, kind, ItemOf(env, kind, e.v, depth), if e.MoreElems? then ListOf(env, kind, e.tail, depth) else Some([]), e.post + more, k, depth);
    ListUnfolds(env, kind, e, depth);
    LiftCases<seq<Value>>(None, k);
  }

  lemma {:induction false} ListRestIs(env: Env, kind: Kind, e: Elems, k: bytes, depth: nat)
    requires ValidElems(e)
    ensures var more := if e.MoreElems? then MoreElemsTo(false, e.tail, [RBRACKET] + k) else [RBRACKET] + k;
            ReadList(env, false, kind, e.post + more, false, depth) ==
            Lift(if e.MoreElems? then ListOf(env, kind, e.tail, depth) else Some([]), k)
    decreases e, 2
  {
    if e.MoreElems? {
      ListIs(env, kind, e.post, false, e.tail, k, depth);
    } else {
      CloseIs(e.post, k, false);
    }
  }

  lemma {:induction false} PairsIs(w: bytes, first: bool, ms: Members, k: bytes, m: map<bytes, bytes>)
    requires AllWs(w) && ValidMembers(ms)
    ensures ReadPairs(w + MoreTo(first, ms, [RBRACE] + k), first, m) == Lift(PairsOf(ms, m), k)
    decreases ms
  {
    var close := [RBRACE] + k;
    var more := if ms.MoreMembers? then MoreTo(false, ms.tail, close) else close;
    assert AllWs(ms.pre) && Valid(ms.v) && AllWs(ms.post);
    assert ms.MoreMembers? ==> ValidMembers(ms.tail);
    KeyIs(w, first, ms, close);
    StringIs(ms.pre, ms.v, ms.post + more);
    hide TreeTo, MembersTo, MoreTo, Valid, ValidMembers, ReadString, NextKey, Meaning;
    var key := Meaning(ms.head.key);
    if ms.v.Str? && key !in m {
      var m' := m[key := Meaning(ms.v.chars)];
      if ms.MoreMembers? {
        PairsIs(ms.post, false, ms.tail, k, m');
      } else {
        CloseIs(ms.post, k, false);
        assert ReadPairs(ms.post + more, false, m') == Ok(m', k);
      }
    }
  }

  lemma {:induction false} PayloadIs(env: Env, f: Field, w: bytes, v: Tree, k: bytes, depth: nat)
    requires AllWs(w) && Valid(v) && Ended(k)
    ensures ReadPayload(env, false, f, w + TreeTo(v, k), depth) == Lift(PayloadOf(env, f, v, depth), k)
    decreases v, 2
  {
    hide TreeTo, Valid, AllWs, ReadNull, ReadBool, ReadItem, ReadList, ReadPairs, ItemOf, ListOf, PairsOf, Begin;
    LiteralIs(w, v, k);
    if v != Lit(NULL) {
      match f.card
      case StringMap => MapIs(w, v, k, depth);
      case Repeated => RepeatedIs(env, f.kind, w, v, k, depth);
      case _ => ItemIs(env, f.kind, w, v, k, depth);
    }
  }

  lemma {:induction false} RepeatedIs(env: Env, kind: Kind, w: bytes, v: Tree, k: bytes, depth: nat)
    requires AllWs(w) && Valid(v)
    ensures var s := w + TreeTo(v, k);
            var b := Begin(s, LBRACKET, depth);
            && (b.Some? <==> (depth + 1 <= MAX_DEPTH && (v.Arr? || v.EmptyArr?)))
            && (b.Some? ==> ReadList(env, false, kind, b.value, true, depth + 1) ==
                            Lift(if v.Arr? then ListOf(env, kind, v.elems, depth + 1) else Some([]), k))
    decreases v, 1
  {
    hide *;
    ArrayOpens(w, v, k, depth);
    EmptySpace(v);
    LiftCases<seq<Value>>(Some([]), k);
    if v.Arr? {
      ListIs(env, kind, [], true, v.elems, k, depth + 1);
    } else if v.EmptyArr? {
      EmptyListIs(env, kind, v.ws, k, depth + 1);
    }
  }

  lemma EmptyListIs(env: Env, kind: Kind, ws: bytes, k: bytes, depth: nat)
    requires AllWs(ws)
    ensures ReadList(env, false, kind, ws + ([RBRACKET] + k), true, depth) == Ok([], k)
  {
    CloseIs(ws, k, true);
    hide NextElem;
  }

  lemma MapIs(w: bytes, v: Tree, k: bytes, depth: nat)
    requires AllWs(w) && Valid(v)
    ensures var s := w + TreeTo(v, k);
            var b := Begin(s, LBRACE, depth);
            && (b.Some? <==> (depth + 1 <= MAX_DEPTH && (v.Obj? || v.EmptyObj?)))
            && (b.Some? ==> ReadPairs(b.value, true, map[]) == Lift(if v.Obj? then PairsOf(v.members, map[]) else Some(map[]), k))
  {
    ObjectOpens(w, v, k, depth);
    hide Begin, TreeTo, MembersTo, NextKey;
    if v.Obj? {
      PairsIs([], true, v.members, k, map[]);
    } else if v.EmptyObj? {
      CloseIs(v.ws, k, true);
    }
  }

  /** What the loop makes of the remaining members: their acts, applied to the message so far. */
  function Applied(mt: MessageType, acts: Option<seq<Act>>, seen: set<nat>, seenOneofs: set<nat>, m: Message): Option<Message>
    requires Shaped(mt, m)
  {
    match acts case None => None case Some(a) => Run(mt, a, seen, seenOneofs, m)
  }

  /** The object loop behind the payload of field `i`. */
  function AfterPayload(env: Env, t: nat, i: nat, r: Read<Payload>, seen: set<nat>, seenOneofs: set<nat>, m: Message, depth: nat): Read<Message>
    requires i < |env.schema(t).fields| && Shaped(env.schema(t), m)
  {
    match r
    case Err => Err
    case Ok(p, v) =>
      match Store(env.schema(t), i, p, m, seenOneofs)
      case None => Err
      case Some((m', o')) => SlowLoop(env, t, v, false, seen + {i}, o', m', depth)
  }

  function AfterSkip(env: Env, t: nat, r: Option<bytes>, seen: set<nat>, seenOneofs: set<nat>, m: Message, depth: nat): Read<Message>
    requires Shaped(env.schema(t), m)
  {
    match r
    case None => Err
    case Some(v) => SlowLoop(env, t, v, false, seen, seenOneofs, m, depth)
  }

  /** One turn of the object loop. */
  lemma LoopTurn(env: Env, t: nat, s: bytes, first: bool, key: bytes, u: bytes, seen: set<nat>, seenOneofs: set<nat>, m: Message, depth: nat)
    requires Shaped(env.schema(t), m) && NextKey(s, first) == Key(key, u)
    ensures var i := Find(env.schema(t), key);
            SlowLoop(env, t, s, first, seen, seenOneofs, m, depth) ==
            if i.None? then (if env.discard then AfterSkip(env, t, SkipValue(u, depth), seen, seenOneofs, m, depth) else Err)
            else if i.value in seen then Err
            else AfterPayload(env, t, i.value, ReadPayload(env, false, env.schema(t).fields[i.value], u, depth), seen, seenOneofs, m, depth)
  {
    hide NextKey, Find, ReadPayload, SkipValue, Store;
  }

  lemma LoopHeadIs(env: Env, t: nat, w: bytes, first: bool, ms: Members, close: bytes, depth: nat,
                   seen: set<nat>, seenOneofs: set<nat>, m: Message)
    requires AllWs(w) && ValidMembers(ms) && Valid(ms.v) && Shaped(env.schema(t), m)
    ensures var u := ms.pre + TreeTo(ms.v, ms.post + (if ms.MoreMembers? then MoreTo(false, ms.tail, close) else close));
            var i := Find(env.schema(t), Meaning(ms.head.key));
            SlowLoop(env, t, w + MoreTo(first, ms, close), first, seen, seenOneofs, m, depth) ==
            if i.None? then (if env.discard then AfterSkip(env, t, SkipValue(u, depth), seen, seenOneofs, m, depth) else Err)
            else if i.value in seen then Err
            else AfterPayload(env, t, i.value, ReadPayload(env, false, env.schema(t).fields[i.value], u, depth), seen, seenOneofs, m, depth)
  {
    var u := ms.pre + TreeTo(ms.v, ms.post + (if ms.MoreMembers? then MoreTo(false, ms.tail, close) else close));
    hide TreeTo, MembersTo, MoreTo, Valid, ValidMembers, NextKey, ReadPayload, SkipValue, Find, SlowLoop, AfterPayload, AfterSkip;
    KeyIs(w, first, ms, close);
    LoopTurn(env, t, w + MoreTo(first, ms, close), first, Meaning(ms.head.key), u, seen, seenOneofs, m, depth);
  }

  lemma FirstMember(ms: Members, k: bytes)
    requires ValidMembers(ms)
    ensures AllWs(ms.pre) && Valid(ms.v) && AllWs(ms.post) && ValidChars(ms.head.key)
    ensures Ended(ms.post + (if ms.MoreMembers? then MoreTo(false, ms.tail, [RBRACE] + k) else [RBRACE] + k))
  {
    EndedTail(ms.post, if ms.MoreMembers? then MoreTo(false, ms.tail, [RBRACE] + k) else [RBRACE] + k);
  }

  lemma {:induction false} LoopIs(env: Env, t: nat, w: bytes, first: bool, ms: Members, k: bytes, depth: nat,
                                  seen: set<nat>, seenOneofs: set<nat>, m: Message)
    requires AllWs(w) && ValidMembers(ms) && Shaped(env.schema(t), m)
    ensures SlowLoop(env, t, w + MoreTo(first, ms, [RBRACE] + k), first, seen, seenOneofs, m, depth) ==
            Lift(Applied(env.schema(t), ActsOf(env, t, ms, depth), seen, seenOneofs, m), k)
    decreases ms, 5
  {
    hide *;
    FirstMember(ms, k);
    LoopHeadIs(env, t, w, first, ms, [RBRACE] + k, depth, seen, seenOneofs, m);
    if Find(env.schema(t), Meaning(ms.head.key)).None? {
      SkipMemberIs(env, t, ms, k, depth, seen, seenOneofs, m);
    } else {
      AssignMemberIs(env, t, ms, k, depth, seen, seenOneofs, m);
    }
  }

  /** A member whose key is not known. */
  lemma {:induction false} SkipMemberIs(env: Env, t: nat, ms: Members, k: bytes, depth: nat, seen: set<nat>, seenOneofs: set<nat>, m: Message)
    requires ValidMembers(ms) && ValidChars(ms.head.key) && Shaped(env.schema(t), m) && Find(env.schema(t), Meaning(ms.head.key)).None?
    ensures var u := ms.pre + TreeTo(ms.v, ms.post + (if ms.MoreMembers? then MoreTo(false, ms.tail, [RBRACE] + k) else [RBRACE] + k));
            (if env.discard then AfterSkip(env, t, SkipValue(u, depth), seen, seenOneofs, m, depth) else Err) ==
            Lift(Applied(env.schema(t), ActsOf(env, t, ms, depth), seen, seenOneofs, m), k)
    decreases ms, 4
  {
    FirstMember(ms, k);
    hide TreeTo, MembersTo, MoreTo, Valid, ValidMembers, Meaning, SkipValue, Find, SlowLoop, PayloadOf, AllWs, Ended, FitsDepth;
    SkipDecides(ms.pre, ms.v, ms.post + (if ms.MoreMembers? then MoreTo(false, ms.tail, [RBRACE] + k) else [RBRACE] + k), depth);
    if MemberOf(env, t, Meaning(ms.head.key), ms.v, depth).Some? {
      RestIs(env, t, ms, k, depth, Skip, seen, seenOneofs, m);
    }
  }

  /** A member for field `i`. */
  lemma {:induction false} AssignMemberIs(env: Env, t: nat, ms: Members, k: bytes, depth: nat, seen: set<nat>, seenOneofs: set<nat>, m: Message)
    requires ValidMembers(ms) && ValidChars(ms.head.key) && Shaped(env.schema(t), m) && Find(env.schema(t), Meaning(ms.head.key)).Some?
    ensures var u := ms.pre + TreeTo(ms.v, ms.post + (if ms.MoreMembers? then MoreTo(false, ms.tail, [RBRACE] + k) else [RBRACE] + k));
            var i := Find(env.schema(t), Meaning(ms.head.key)).value;
            (if i in seen then Err
             else AfterPayload(env, t, i, ReadPayload(env, false, env.schema(t).fields[i], u, depth), seen, seenOneofs, m, depth)) ==
            Lift(Applied(env.schema(t), ActsOf(env, t, ms, depth), seen, seenOneofs, m), k)
    decreases ms, 4
  {
    var mt := env.schema(t);
    FirstMember(ms, k);
    hide TreeTo, MembersTo, MoreTo, Valid, ValidMembers, Meaning, ReadPayload, Find, Store, SlowLoop, PayloadOf, AllWs, Ended;
    var i := Find(mt, Meaning(ms.head.key)).value;
    PayloadIs(env, mt.fields[i], ms.pre, ms.v, ms.post + (if ms.MoreMembers? then MoreTo(false, ms.tail, [RBRACE] + k) else [RBRACE] + k), depth);
    var a := MemberOf(env, t, Meaning(ms.head.key), ms.v, depth);
    if a.Some? {
      FirstAct(env, t, ms, depth, a.value);
      if i !in seen && Store(mt, i, a.value.p, m, seenOneofs).Some? {
        var (m', o') := Store(mt, i, a.value.p, m, seenOneofs).value;
        RestIs(env, t, ms, k, depth, a.value, seen + {i}, o', m');
      }
    }
  }

  lemma FirstAct(env: Env, t: nat, ms: Members, depth: nat, a: Act)
    requires ValidMembers(ms) && MemberOf(env, t, Meaning(ms.head.key), ms.v, depth) == Some(a)
    ensures var acts := ActsOf(env, t, ms, depth);
            acts.Some? ==> acts.value != [] && acts.value[0] == a
  {
  }

  /** The loop behind a member that has been handled. */
  lemma {:induction false} RestIs(env: Env, t: nat, ms: Members, k: bytes, depth: nat, a: Act,
                                  seen: set<nat>, seenOneofs: set<nat>, m: Message)
    requires ValidMembers(ms) && Shaped(env.schema(t), m)
    requires MemberOf(env, t, Meaning(ms.head.key), ms.v, depth) == Some(a)
    ensures var more := if ms.MoreMembers? then MoreTo(false, ms.tail, [RBRACE] + k) else [RBRACE] + k;
            var acts := ActsOf(env, t, ms, depth);
            && SlowLoop(env, t, ms.post + more, false, seen, seenOneofs, m, depth) ==
               Lift(if acts.Some? then Run(env.schema(t), acts.value[1..], seen, seenOneofs, m) else None, k)
            && (acts.Some? ==> acts.value != [] && acts.value[0] == a)
    decreases ms, 3
  {
    if ms.MoreMembers? {
      assert ValidMembers(ms.tail) && AllWs(ms.post);
      LoopIs(env, t, ms.post, false, ms.tail, k, depth, seen, seenOneofs, m);
      var tail := ActsOf(env, t, ms.tail, depth);
      if tail.Some? {
        assert ([a] + tail.value)[1..] == tail.value;
      }
    } else {
      assert AllWs(ms.post);
      CloseIs(ms.post, k, false);
    }
  }

  /** What the opening step finds in front of an object. */
  lemma ObjectOpens(w: bytes, v: Tree, k: bytes, depth: nat)
    requires AllWs(w) && Valid(v)
    ensures Begin(w + TreeTo(v, k), LBRACE, depth) ==
            if depth + 1 > MAX_DEPTH then None
            else if v.Obj? then Some([] + MoreTo(true, v.members, [RBRACE] + k))
            else if v.EmptyObj? then Some(v.ws + ([RBRACE] + k))
            else None
  {
    var u := TreeTo(v, k);
    TreeStarts(w, v, k);
    BeginIs(w, u, LBRACE, depth);
    hide Begin, MembersTo;
    if v.Obj? {
      assert u[1..] == [] + MoreTo(true, v.members, [RBRACE] + k);
    } else if v.EmptyObj? {
      assert u[1..] == v.ws + ([RBRACE] + k);
    }
  }

  lemma ArrayOpens(w: bytes, v: Tree, k: bytes, depth: nat)
    requires AllWs(w) && Valid(v)
    ensures Begin(w + TreeTo(v, k), LBRACKET, depth) ==
            if depth + 1 > MAX_DEPTH then None
            else if v.Arr? then Some([] + MoreElemsTo(true, v.elems, [RBRACKET] + k))
            else if v.EmptyArr? then Some(v.ws + ([RBRACKET] + k))
            else None
  {
    var u := TreeTo(v, k);
    TreeStarts(w, v, k);
    BeginIs(w, u, LBRACKET, depth);
    hide Begin, ElemsTo;
    if v.Arr? {
      assert u[1..] == [] + MoreElemsTo(true, v.elems, [RBRACKET] + k);
    } else if v.EmptyArr? {
      assert u[1..] == v.ws + ([RBRACKET] + k);
    }
  }

  lemma MessageBegins(env: Env, t: nat, s: bytes, depth: nat)
    ensures Shaped(env.schema(t), Fresh(env.schema(t)))
    ensures SlowMessage(env, t, s, depth) ==
            var b := Begin(s, LBRACE, depth);
            if b.None? then Err else SlowLoop(env, t, b.value, true, {}, {}, Fresh(env.schema(t)), depth + 1)
  {
    hide Begin, SlowLoop;
  }

  lemma MessageUnfolds(env: Env, t: nat, v: Tree, depth: nat)
    requires Valid(v)
    ensures v.Obj? ==> ValidMembers(v.members)
    ensures MessageOf(env, t, v, depth) ==
            if depth + 1 > MAX_DEPTH then None
            else if v.Obj? then Applied(env.schema(t), ActsOf(env, t, v.members, depth + 1), {}, {}, Fresh(env.schema(t)))
            else if v.EmptyObj? then Some(Fresh(env.schema(t)))
            else None
  {
    hide ActsOf, Run, Fresh;
  }

  lemma EmptyLoopIs(env: Env, t: nat, ws: bytes, k: bytes, depth: nat)
    requires AllWs(ws)
    ensures SlowLoop(env, t, ws + ([RBRACE] + k), true, {}, {}, Fresh(env.schema(t)), depth) == Ok(Fresh(env.schema(t)), k)
  {
    CloseIs(ws, k, true);
    hide NextKey, Fresh;
  }

  lemma EmptySpace(v: Tree)
    requires Valid(v)
    ensures AllWs([]) && (v.EmptyObj? || v.EmptyArr? ==> AllWs(v.ws)) && (v.Arr? ==> ValidElems(v.elems))
  {
  }

  lemma {:induction false} MessageIs(env: Env, t: nat, w: bytes, v: Tree, k: bytes, depth: nat)
    requires AllWs(w) && Valid(v)
    ensures SlowMessage(env, t, w + TreeTo(v, k), depth) == Lift(MessageOf(env, t, v, depth), k)
    decreases v, 0
  {
    hide *;
    ObjectOpens(w, v, k, depth);
    MessageBegins(env, t, w + TreeTo(v, k), depth);
    MessageUnfolds(env, t, v, depth);
    LiftCases(MessageOf(env, t, v, depth), k);
    EmptySpace(v);
    if depth + 1 <= MAX_DEPTH {
      if v.Obj? {
        LoopIs(env, t, [], true, v.members, k, depth + 1, {}, {}, Fresh(env.schema(t)));
      } else if v.EmptyObj? {
        EmptyLoopIs(env, t, v.ws, k, depth + 1);
      }
    }
  }
}
