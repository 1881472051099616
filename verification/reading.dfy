/**
 What a JSON text says about a message, written out without any of the functions that the decoders
 are modelled with: literals, digits, bounds and zero values stand here as they are. The decoders come
 to exactly that.
 */
module Reading {
  import opened Bytes
  import opened Json
  import opened Schema
  import opened Generated
  import opened Exact
  import N = Numbers
  import A = Acts
  import M = Meanings
  import Refine

  // ---------------------------------------------------------------- text

  predicate Blank(s: bytes) {
    forall i :: 0 <= i < |s| ==> s[i] as char in " \t\r\n"
  }

  predicate IsNull(v: Tree) {
    v == Lit(Ascii("null"))
  }

  lemma Words()
    ensures Ascii("null") == NULL && Ascii("true") == TRUE && Ascii("false") == FALSE
  {
  }

  lemma BlankIsWs(s: bytes)
    ensures Blank(s) <==> AllWs(s)
  {
  }

  predicate Decimal(s: bytes) {
    s != [] && forall i :: 0 <= i < |s| ==> '0' <= s[i] as char <= '9'
  }

  /** The number that a run of digits denotes. */
  function ValueOf(s: bytes): (r: nat)
    requires forall i :: 0 <= i < |s| ==> '0' <= s[i] as char <= '9'
  {
    if s == [] then 0 else 10 * ValueOf(s[..|s| - 1]) + (s[|s| - 1] - 48)
  }

  lemma {:induction false} ValueOfIs(s: bytes)
    requires AllDigits(s)
    ensures ValueOf(s) == N.ValueFrom(0, s)
  {
    if s != [] {
      ValueOfIs(s[..|s| - 1]);
      assert s == s[..|s| - 1] + s[|s| - 1..];
      N.ValueFromAppend(0, s[..|s| - 1], s[|s| - 1..]);
      assert s[|s| - 1..][1..] == [];
    }
  }

  // ---------------------------------------------------------------- integers

  /** Some digits at the start of `s` alone are too large for 64 bits, at which strconv stops. */
  ghost predicate Overflows(s: bytes) {
    exists p :: 0 <= p <= |s| && Decimal(s[..p]) && ValueOf(s[..p]) > 18446744073709551615
  }

  function Magnitude(s: bytes): bytes {
    if s != [] && s[0] as char in "+-" then s[1..] else s
  }

  function WithSign(s: bytes, n: nat): int {
    if s != [] && s[0] as char == '-' then 0 - n else n
  }

  /** The contents of a string as a signed number: digits with an optional sign, or what ParseFloat makes of other text. */
  ghost predicate SignedText(fl: N.Floats, s: bytes, n: int) {
    if Decimal(Magnitude(s)) then
      n == WithSign(s, ValueOf(Magnitude(s))) && -9223372036854775808 <= n <= 9223372036854775807
    else !Overflows(Magnitude(s)) && fl.signed(s) == Some(n)
  }

  ghost predicate UnsignedText(fl: N.Floats, s: bytes, n: int) {
    if Decimal(s) then n == ValueOf(s) && n <= 18446744073709551615
    else !Overflows(s) && fl.unsigned(s) == Some(n)
  }

  predicate IsWhole(num: Numeral) {
    num.frac == None && num.exp == None
  }

  /** A number token. Fractions and exponents go to ParseFloat, unless the integer part alone is too large. */
  predicate SignedNumber(fl: N.Floats, num: Numeral, n: int) {
    && ValidNum(num)
    && var k: int := if num.neg then 0 - ValueOf(num.whole) else ValueOf(num.whole);
    && -9223372036854775808 <= k <= 9223372036854775807
    && (if IsWhole(num) then n == k else fl.signed(NumTo(num, [])) == Some(n))
  }

  predicate UnsignedNumber(fl: N.Floats, num: Numeral, n: int) {
    && ValidNum(num)
    && if num.neg then fl.unsigned(NumTo(num, [])) == Some(n)
       else
         && ValueOf(num.whole) <= 18446744073709551615
         && (if IsWhole(num) then n == ValueOf(num.whole) else fl.unsigned(NumTo(num, [])) == Some(n))
  }

  /** What a string denotes. */
  function TextOf(v: Tree): bytes {
    if v.Str? && ValidChars(v.chars) then Meaning(v.chars) else []
  }

  ghost predicate IsSigned(fl: N.Floats, v: Tree, n: int) {
    (v.Number? && SignedNumber(fl, v.num, n)) || (v.Str? && SignedText(fl, TextOf(v), n))
  }

  ghost predicate IsUnsigned(fl: N.Floats, v: Tree, n: int) {
    (v.Number? && UnsignedNumber(fl, v.num, n)) || (v.Str? && UnsignedText(fl, TextOf(v), n))
  }

  /** The first `p` digits of `s`, appended to what has been read, are too large. */
  predicate TooLarge(s: bytes, u: nat, p: nat) {
    p <= |s| && AllDigits(s[..p]) && N.ValueFrom(u, s[..p]) > N.MAX_UINT64
  }

  lemma TooLargeTail(s: bytes, u: nat, p: nat)
    requires s != [] && IsDigit(s[0])
    ensures TooLarge(s, u, p + 1) <==> TooLarge(s[1..], u * 10 + (s[0] - ZERO), p)
  {
    if p < |s| {
      assert s[..p + 1][1..] == s[1..][..p];
      assert s[..p + 1] == [s[0]] + s[1..][..p];
    }
  }

  lemma {:induction false} RangeExact(s: bytes, u: nat)
    requires u <= N.MAX_UINT64
    ensures N.ParseDigits(s, u).Range? <==> exists p: nat :: TooLarge(s, u, p)
  {
    hide TooLarge;
    NotTooLarge(s, u);
    if s != [] && IsDigit(s[0]) {
      var v := u * 10 + (s[0] - ZERO);
      TooLargeTail(s, u, 0);
      NoneTooLarge(s[1..], v);
      if v <= N.MAX_UINT64 {
        RangeExact(s[1..], v);
        if p: nat :| TooLarge(s, u, p) {
          TooLargeTail(s, u, p - 1);
        }
        if p: nat :| TooLarge(s[1..], v, p) {
          TooLargeTail(s, u, p);
        }
      }
    }
  }

  lemma NotTooLarge(s: bytes, u: nat)
    requires u <= N.MAX_UINT64
    ensures !TooLarge(s, u, 0)
    ensures s == [] || !IsDigit(s[0]) ==> forall p: nat :: !TooLarge(s, u, p)
  {
    forall p: nat | p > 0 && (s == [] || !IsDigit(s[0])) ensures !TooLarge(s, u, p) {
      assert p <= |s| ==> s[..p][0] == s[0];
    }
  }

  lemma NoneTooLarge(s: bytes, u: nat)
    ensures u > N.MAX_UINT64 ==> TooLarge(s, u, 0)
  {
  }

  lemma OverflowIs(s: bytes)
    ensures Overflows(s) <==> exists p: nat :: TooLarge(s, 0, p)
  {
    forall p: nat | p <= |s|
      ensures TooLarge(s, 0, p) <==> Decimal(s[..p]) && ValueOf(s[..p]) > 18446744073709551615
    {
      if AllDigits(s[..p]) {
        ValueOfIs(s[..p]);
      }
    }
  }

  /** What strconv.ParseUint makes of a text. */
  lemma ParseExact(s: bytes)
    ensures Decimal(s) ==> N.ParseUint64(s) == if ValueOf(s) <= 18446744073709551615 then N.Number(ValueOf(s)) else N.Range
    ensures !Decimal(s) ==> N.ParseUint64(s) == if Overflows(s) then N.Range else N.Syntax
  {
    assert s != [] ==> (Decimal(s) <==> AllDigits(s));
    if Decimal(s) {
      ValueOfIs(s);
    }
    hide TooLarge, Overflows, N.ParseDigits, Decimal;
    NoDigits();
    N.ParseDigitsExact(s, 0);
    RangeExact(s, 0);
    OverflowIs(s);
  }

  lemma SignedTextExact(fl: N.Floats, s: bytes, n: int)
    ensures N.OrFloat(N.ParseInt64(s), fl.signed(s)) == Some(n) <==> SignedText(fl, s, n)
    ensures N.OrFloat(N.ParseUint64(s), fl.unsigned(s)) == Some(n) <==> UnsignedText(fl, s, n)
  {
    ParseExact(s);
    ParseExact(Magnitude(s));
    assert N.DropSign(s) == Magnitude(s);
    hide N.ParseUint64, Overflows, Decimal;
    if s == [] {
      NoDigits();
    }
  }

  lemma NoDigits()
    ensures !Decimal([]) && !Overflows([])
  {
  }

  lemma SignedExact(fl: N.Floats, v: Tree, n: int)
    requires Valid(v)
    ensures M.SignedOf(fl, v) == Some(n) <==> IsSigned(fl, v, n)
    ensures M.UnsignedOf(fl, v) == Some(n) <==> IsUnsigned(fl, v, n)
  {
    if v.Number? {
      ValueOfIs(v.num.whole);
    } else if v.Str? {
      hide SignedText, UnsignedText, N.ParseInt64, N.ParseUint64, N.OrFloat;
      SignedTextExact(fl, Meaning(v.chars), n);
    }
  }

  // ---------------------------------------------------------------- values

  /** The enum has a value with this name and number. */
  ghost predicate NameGives(values: seq<EnumValue>, name: bytes, n: int) {
    exists i :: 0 <= i < |values| && values[i].name == name && values[i].number == n
  }

  predicate Nameless(values: seq<EnumValue>, name: bytes) {
    forall i :: 0 <= i < |values| ==> values[i].name != name
  }

  /** A name that its enum does not know and that is discarded. */
  predicate IsDropped(env: Env, kind: Kind, v: Tree) {
    env.discard && kind.EnumKind? && v.Str? && Nameless(kind.values, TextOf(v))
  }

  /** What a field holds that has not been mentioned, or was set to null. */
  predicate IsZero(f: Field, slot: Slot) {
    match f.card
    case Repeated => slot == Many([])
    case StringMap => slot == Pairs(map[])
    case Optional => slot == Pointer(None)
    case Member(_) => slot == InOneof
    case Implicit =>
      if f.kind.MessageKind? then slot == Pointer(None)
      else if f.kind.StringKind? then slot == One(Value.Str([]))
      else if f.kind.BoolKind? then slot == One(Bool(false))
      else slot == One(Num(0))
  }

  function ElementsOf(e: Elems): seq<Tree> {
    match e
    case LastElem(_, v, _) => [v]
    case MoreElems(_, v, _, tail) => [v] + ElementsOf(tail)
  }

  function ElementsIn(v: Tree): seq<Tree> {
    if v.Arr? then ElementsOf(v.elems) else []
  }

  function MembersIn(v: Tree): seq<Entry> {
    if v.Obj? then EntriesOf(v.members) else []
  }

  function KeyOf(e: Entry): bytes {
    if ValidChars(e.head.key) then Meaning(e.head.key) else []
  }

  /** The member is for this field, under its JSON name or its proto name. */
  predicate Named(f: Field, e: Entry) {
    KeyOf(e) == f.json || KeyOf(e) == f.proto
  }

  /** The entries of a map of strings: no key twice. */
  ghost predicate MapSays(es: seq<Entry>, m: map<bytes, bytes>) {
    && (forall i :: 0 <= i < |es| ==> es[i].v.Str? && KeyOf(es[i]) in m && m[KeyOf(es[i])] == TextOf(es[i].v))
    && (forall i, j :: 0 <= i < j < |es| ==> KeyOf(es[i]) != KeyOf(es[j]))
    && (forall k :: k in m ==> exists i :: 0 <= i < |es| && KeyOf(es[i]) == k)
  }

  predicate Shallow(v: Tree, depth: nat) {
    Height(v) == 0 || depth + Height(v) <= 100
  }

  // ---------------------------------------------------------------- messages

  /** The value `v` at this depth gives `x` for an element of this kind. A discarded name gives zero. */
  ghost predicate Means(env: Env, kind: Kind, v: Tree, x: Value, depth: nat)
    decreases 100 - depth, 1, 0
  {
    match kind
    case StringKind => v.Str? && x == Value.Str(TextOf(v))
    case BoolKind => (v == Lit(Ascii("true")) && x == Bool(true)) || (v == Lit(Ascii("false")) && x == Bool(false))
    case Int32Kind => x.Num? && IsSigned(env.floats, v, x.n) && -2147483648 <= x.n <= 2147483647
    case Int64Kind => x.Num? && IsSigned(env.floats, v, x.n)
    case Uint32Kind => x.Num? && IsUnsigned(env.floats, v, x.n) && 0 <= x.n <= 4294967295
    case Uint64Kind => x.Num? && IsUnsigned(env.floats, v, x.n)
    case EnumKind(values) =>
      && x.Num?
      && if v.Str? then NameGives(values, TextOf(v), x.n) || (IsDropped(env, kind, v) && x.n == 0)
         else IsSigned(env.floats, v, x.n) && -2147483648 <= x.n <= 2147483647
    case MessageKind(t) => x.Sub? && Says(env, t, v, x.m, depth)
  }

  /** The elements of a list one by one: null messages are refused, discarded names left out. */
  ghost predicate ListSays(env: Env, kind: Kind, vs: seq<Tree>, xs: seq<Value>, depth: nat)
    decreases 100 - depth, 2, |vs|
  {
    if vs == [] then xs == []
    else if IsDropped(env, kind, vs[0]) then ListSays(env, kind, vs[1..], xs, depth)
    else
      && !(kind.MessageKind? && IsNull(vs[0]))
      && xs != [] && Means(env, kind, vs[0], xs[0], depth) && ListSays(env, kind, vs[1..], xs[1..], depth)
  }

  /** A field outside oneofs that is given `v` holds `slot`. */
  ghost predicate Holds(env: Env, f: Field, v: Tree, slot: Slot, depth: nat)
    decreases 100 - depth, 3, 0
  {
    if IsNull(v) then IsZero(f, slot)
    else
      match f.card
      case Repeated => depth < 100 && (v.Arr? || v.EmptyArr?) && slot.Many? && ListSays(env, f.kind, ElementsIn(v), slot.vs, depth + 1)
      case StringMap => depth < 100 && (v.Obj? || v.EmptyObj?) && slot.Pairs? && MapSays(MembersIn(v), slot.m)
      case Implicit =>
        if f.kind.MessageKind? then slot.Pointer? && slot.p.Some? && Means(env, f.kind, v, slot.p.value, depth)
        else slot.One? && Means(env, f.kind, v, slot.v, depth)
      case Optional => slot.Pointer? && slot.p.Some? && Means(env, f.kind, v, slot.p.value, depth)
      case Member(_) => false
  }

  /** Field `i`, which is given `v`, is found so in `m`; a null leaves its oneof to the other members. */
  ghost predicate FieldSays(env: Env, f: Field, i: nat, v: Tree, m: Message, depth: nat)
    requires i < |m.slots|
    decreases 100 - depth, 4, 0
  {
    if f.card.Member? then
      || IsNull(v)
      || (f.card.oneof in m.oneofs && m.oneofs[f.card.oneof].field == i && Means(env, f.kind, v, m.oneofs[f.card.oneof].v, depth))
    else Holds(env, f, v, m.slots[i], depth)
  }

  /** The member is for a field that `m` holds so, or has an unknown key that is discarded. */
  ghost predicate EntrySays(env: Env, t: nat, e: Entry, m: Message, depth: nat)
    requires |m.slots| == |env.schema(t).fields|
    decreases 100 - depth, 5, 0
  {
    var fields := env.schema(t).fields;
    && ((forall i :: 0 <= i < |fields| ==> !Named(fields[i], e)) ==> env.discard && Shallow(e.v, depth))
    && (forall i :: 0 <= i < |fields| && Named(fields[i], e) ==> FieldSays(env, fields[i], i, e.v, m, depth))
  }

  /** The member gives field `i` of the oneof `o` a value. */
  predicate Chooses(fields: seq<Field>, e: Entry, i: nat, o: nat) {
    i < |fields| && Named(fields[i], e) && fields[i].card == Member(o) && !IsNull(e.v)
  }

  /** Both members are for one field, or choose in one oneof. */
  ghost predicate Clash(fields: seq<Field>, a: Entry, b: Entry) {
    || (exists i :: 0 <= i < |fields| && Named(fields[i], a) && Named(fields[i], b))
    || (exists i: nat, j: nat, o: nat :: Chooses(fields, a, i, o) && Chooses(fields, b, j, o))
  }

  /** The oneof `o` is chosen in by a member. */
  ghost predicate Chosen(fields: seq<Field>, es: seq<Entry>, o: nat) {
    exists k, i: nat :: 0 <= k < |es| && Chooses(fields, es[k], i, o)
  }

  predicate Unmentioned(f: Field, es: seq<Entry>) {
    forall k :: 0 <= k < |es| ==> !Named(f, es[k])
  }

  /** The object `v` at this depth says `m`. */
  ghost predicate Says(env: Env, t: nat, v: Tree, m: Message, depth: nat)
    decreases 100 - depth, 0, 0
  {
    var fields, es := env.schema(t).fields, MembersIn(v);
    && depth < 100 && (v.Obj? || v.EmptyObj?)
    && |m.slots| == |fields|
    && (forall k :: 0 <= k < |es| ==> EntrySays(env, t, es[k], m, depth + 1))
    && (forall j, k :: 0 <= j < k < |es| ==> !Clash(fields, es[j], es[k]))
    && (forall i :: 0 <= i < |fields| && (fields[i].card.Member? || Unmentioned(fields[i], es)) ==> IsZero(fields[i], m.slots[i]))
    && (forall o :: o in m.oneofs ==> Chosen(fields, es, o))
  }

  // ---------------------------------------------------------------- the decoder, value by value

  lemma ZeroIs(f: Field, slot: Slot)
    ensures IsZero(f, slot) <==> slot == ZeroSlot(f)
  {
  }

  lemma {:induction false} FindNameExact(values: seq<EnumValue>, name: bytes, n: int)
    requires EnumOk(values)
    ensures FindName(values, name) == Some(n) <==> NameGives(values, name, n)
    ensures FindName(values, name).None? <==> Nameless(values, name)
  {
    if values != [] {
      var tail := values[1..];
      assert EnumOk(tail);
      FindNameExact(tail, name, n);
      assert forall i :: 1 <= i < |values| ==> values[i] == tail[i - 1];
      if NameGives(tail, name, n) {
        var i :| 0 <= i < |tail| && tail[i].name == name && tail[i].number == n;
        assert values[i + 1].name == name;
      }
    }
  }

  predicate KindOk(kind: Kind) {
    kind.EnumKind? ==> EnumOk(kind.values)
  }

  lemma FieldKind(schema: Schema, t: nat, i: nat)
    requires SchemaOk(schema) && i < |schema(t).fields|
    ensures KindOk(schema(t).fields[i].kind)
  {
    FieldIsOk(schema, t, i);
  }

  lemma EnumMeans(env: Env, kind: Kind, v: Tree, x: Value, depth: nat)
    requires Valid(v) && kind.EnumKind? && KindOk(kind)
    ensures M.EnumOf(env, kind.values, v).Some? && Stored(M.EnumOf(env, kind.values, v).value) == x <==> Means(env, kind, v, x, depth)
    ensures M.EnumOf(env, kind.values, v) == Some(Unknown) <==> IsDropped(env, kind, v)
  {
    if v.Str? {
      FindNameExact(kind.values, Meaning(v.chars), if x.Num? then x.n else 0);
      hide FindName, NameGives, Nameless;
    } else if x.Num? {
      SignedExact(env.floats, v, x.n);
      hide M.SignedOf, IsSigned;
    }
  }

  lemma ScalarMeans(env: Env, kind: Kind, v: Tree, x: Value, depth: nat)
    requires Valid(v) && !kind.MessageKind? && KindOk(kind)
    ensures M.ScalarOf(env, kind, v).Some? && Stored(M.ScalarOf(env, kind, v).value) == x <==> Means(env, kind, v, x, depth)
    ensures M.ScalarOf(env, kind, v) == Some(Unknown) <==> IsDropped(env, kind, v)
  {
    hide IsSigned, IsUnsigned, M.SignedOf, M.UnsignedOf, M.EnumOf, EnumOk, KindOk;
    Words();
    if kind.EnumKind? {
      EnumMeans(env, kind, v, x, depth);
    } else if x.Num? {
      SignedExact(env.floats, v, x.n);
    }
  }

  lemma {:induction false} ItemMeans(env: Env, kind: Kind, v: Tree, x: Value, depth: nat)
    requires SchemaOk(env.schema) && Valid(v) && KindOk(kind)
    ensures M.ItemOf(env, kind, v, depth).Some? && Stored(M.ItemOf(env, kind, v, depth).value) == x <==> Means(env, kind, v, x, depth)
    ensures M.ItemOf(env, kind, v, depth) == Some(Unknown) <==> IsDropped(env, kind, v)
    decreases 100 - depth, 1, 0
  {
    hide SchemaOk, M.ScalarOf, M.MessageOf, Valid, EnumOk, Says;
    if kind.MessageKind? {
      if x.Sub? {
        MeaningExact(env, kind.message, v, x.m, depth);
      }
    } else {
      hide Means;
      ScalarMeans(env, kind, v, x, depth);
    }
  }

  lemma ListStep(env: Env, kind: Kind, vs: seq<Tree>, xs: seq<Value>, depth: nat)
    requires vs != []
    ensures ListSays(env, kind, vs, xs, depth) <==>
            if IsDropped(env, kind, vs[0]) then ListSays(env, kind, vs[1..], xs, depth)
            else !(kind.MessageKind? && IsNull(vs[0])) && xs != [] && Means(env, kind, vs[0], xs[0], depth) && ListSays(env, kind, vs[1..], xs[1..], depth)
  {
    hide Means, IsDropped;
  }

  lemma ListEnd(env: Env, kind: Kind, xs: seq<Value>, depth: nat)
    ensures ListSays(env, kind, [], xs, depth) <==> xs == []
  {
  }

  lemma ElemsHead(e: Elems)
    ensures ElementsOf(e) != [] && ElementsOf(e)[0] == e.v
    ensures ElementsOf(e)[1..] == if e.MoreElems? then ElementsOf(e.tail) else []
  {
  }

  /** An element that is stored stands in front of the others. */
  lemma JoinedIs(item: Option<Item>, tail: Option<seq<Value>>, xs: seq<Value>)
    ensures M.Joined(item, tail) == Some(xs) <==>
            && item.Some? && tail.Some?
            && if item.value.Unknown? then tail.value == xs
               else xs != [] && Stored(item.value) == xs[0] && tail.value == xs[1..]
  {
    if xs != [] {
      assert xs == [xs[0]] + xs[1..];
    }
  }

  lemma {:induction false} ListMeans(env: Env, kind: Kind, e: Elems, xs: seq<Value>, depth: nat)
    requires SchemaOk(env.schema) && ValidElems(e) && KindOk(kind)
    ensures M.ListOf(env, kind, e, depth) == Some(xs) <==> ListSays(env, kind, ElementsOf(e), xs, depth)
    decreases 100 - depth, 2, e, 1
  {
    assert Valid(e.v) && (e.MoreElems? ==> ValidElems(e.tail));
    Words();
    hide SchemaOk, M.ItemOf, M.ListOf, M.Joined, Valid, KindOk, ListSays, ElementsOf, Means, IsDropped, Stored;
    M.ListUnfolds(env, kind, e, depth);
    ElemsHead(e);
    var vs := ElementsOf(e);
    ListStep(env, kind, vs, xs, depth);
    ItemMeans(env, kind, e.v, if xs == [] then Num(0) else xs[0], depth);
    var tail := if e.MoreElems? then M.ListOf(env, kind, e.tail, depth) else Some([]);
    JoinedIs(M.ItemOf(env, kind, e.v, depth), tail, xs);
    TailMeans(env, kind, e, xs, depth);
    if xs != [] {
      TailMeans(env, kind, e, xs[1..], depth);
    }
  }

  lemma {:induction false} TailMeans(env: Env, kind: Kind, e: Elems, xs: seq<Value>, depth: nat)
    requires SchemaOk(env.schema) && ValidElems(e) && KindOk(kind)
    ensures (if e.MoreElems? then M.ListOf(env, kind, e.tail, depth) else Some([])) == Some(xs) <==>
            ListSays(env, kind, ElementsOf(e)[1..], xs, depth)
    decreases 100 - depth, 2, e, 0
  {
    assert e.MoreElems? ==> ValidElems(e.tail);
    hide SchemaOk, M.ListOf, KindOk, ListSays, ElementsOf;
    ElemsHead(e);
    if e.MoreElems? {
      ListMeans(env, kind, e.tail, xs, depth);
    } else {
      ListEnd(env, kind, xs, depth);
    }
  }

  /** The entries are new and are in `m`, which holds nothing but them and what `m0` holds. */
  ghost predicate Adds(es: seq<Entry>, m0: map<bytes, bytes>, m: map<bytes, bytes>) {
    && (forall i :: 0 <= i < |es| ==> Adds1(es[i], m0, m))
    && (forall i, j :: 0 <= i < j < |es| ==> KeyOf(es[i]) != KeyOf(es[j]))
    && (forall k :: k in m0 ==> k in m && m[k] == m0[k])
    && (forall k :: k in m ==> k in m0 || exists i :: 0 <= i < |es| && KeyOf(es[i]) == k)
  }

  predicate Adds1(e: Entry, m0: map<bytes, bytes>, m: map<bytes, bytes>) {
    e.v.Str? && KeyOf(e) !in m0 && KeyOf(e) in m && m[KeyOf(e)] == TextOf(e.v)
  }

  lemma AddsNothing(m0: map<bytes, bytes>, m: map<bytes, bytes>)
    ensures Adds([], m0, m) <==> m == m0
  {
  }

  lemma AddsTail(es: seq<Entry>, m0: map<bytes, bytes>, m: map<bytes, bytes>)
    requires es != [] && Adds(es, m0, m)
    ensures Adds1(es[0], m0, m) && Adds(es[1..], m0[KeyOf(es[0]) := TextOf(es[0].v)], m)
  {
    hide KeyOf, TextOf;
    var m1 := m0[KeyOf(es[0]) := TextOf(es[0].v)];
    var tail := es[1..];
    assert Adds1(es[0], m0, m);
    forall i | 0 <= i < |tail| ensures Adds1(tail[i], m1, m) {
      assert Adds1(es[i + 1], m0, m) && KeyOf(es[0]) != KeyOf(es[i + 1]);
    }
    forall i, j | 0 <= i < j < |tail| ensures KeyOf(tail[i]) != KeyOf(tail[j]) {
      assert KeyOf(es[i + 1]) != KeyOf(es[j + 1]);
    }
    forall k | k in m && k !in m1 ensures exists i :: 0 <= i < |tail| && KeyOf(tail[i]) == k {
      var i :| 0 <= i < |es| && KeyOf(es[i]) == k;
      assert tail[i - 1] == es[i];
    }
  }

  lemma AddsFront(es: seq<Entry>, m0: map<bytes, bytes>, m: map<bytes, bytes>)
    requires es != [] && es[0].v.Str? && KeyOf(es[0]) !in m0 && Adds(es[1..], m0[KeyOf(es[0]) := TextOf(es[0].v)], m)
    ensures Adds(es, m0, m)
  {
    hide KeyOf, TextOf;
    var key := KeyOf(es[0]);
    var m1 := m0[key := TextOf(es[0].v)];
    var tail := es[1..];
    assert key in m1 && m[key] == m1[key];
    forall i | 0 <= i < |es| ensures Adds1(es[i], m0, m) && (i > 0 ==> KeyOf(es[i]) != key) {
      if i > 0 {
        assert Adds1(tail[i - 1], m1, m);
      }
    }
    forall i, j | 0 <= i < j < |es| ensures KeyOf(es[i]) != KeyOf(es[j]) {
      if i > 0 {
        assert KeyOf(tail[i - 1]) != KeyOf(tail[j - 1]);
      }
    }
    forall k | k in m0 ensures k in m && m[k] == m0[k] {
      assert k in m1 && m1[k] == m0[k];
    }
    forall k | k in m && k !in m0 ensures exists i :: 0 <= i < |es| && KeyOf(es[i]) == k {
      if k == key {
        assert KeyOf(es[0]) == k;
      } else {
        assert k !in m1;
        var i :| 0 <= i < |tail| && KeyOf(tail[i]) == k;
        assert es[i + 1] == tail[i];
      }
    }
  }

  lemma AddsIsMap(es: seq<Entry>, m: map<bytes, bytes>)
    ensures Adds(es, map[], m) <==> MapSays(es, m)
  {
    hide KeyOf, TextOf;
    assert forall i :: 0 <= i < |es| ==> (Adds1(es[i], map[], m) <==> es[i].v.Str? && KeyOf(es[i]) in m && m[KeyOf(es[i])] == TextOf(es[i].v));
  }

  lemma MembersHead(ms: Members)
    ensures EntriesOf(ms) != [] && EntriesOf(ms)[0] == Entry(ms.head, ms.pre, ms.v, ms.post)
    ensures EntriesOf(ms)[1..] == if ms.MoreMembers? then EntriesOf(ms.tail) else []
    ensures ValidMembers(ms) ==> KeyOf(EntriesOf(ms)[0]) == Meaning(ms.head.key)
  {
  }

  lemma {:induction false} PairsMean(ms: Members, m0: map<bytes, bytes>, m: map<bytes, bytes>)
    requires ValidMembers(ms)
    ensures M.PairsOf(ms, m0) == Some(m) <==> Adds(EntriesOf(ms), m0, m)
    decreases ms
  {
    hide Adds, EntriesOf, KeyOf;
    assert Valid(ms.v);
    MembersHead(ms);
    var m1 := m0[Meaning(ms.head.key) := TextOf(ms.v)];
    if Adds(EntriesOf(ms), m0, m) {
      AddsTail(EntriesOf(ms), m0, m);
    }
    if ms.v.Str? && Meaning(ms.head.key) !in m0 && Adds(EntriesOf(ms)[1..], m1, m) {
      AddsFront(EntriesOf(ms), m0, m);
    }
    if ms.MoreMembers? {
      PairsMean(ms.tail, m1, m);
    } else {
      AddsNothing(m1, m);
    }
  }

  lemma MapMeans(v: Tree, m: map<bytes, bytes>)
    requires Valid(v) && (v.Obj? || v.EmptyObj?)
    ensures (if v.Obj? then M.PairsOf(v.members, map[]) else Some(map[])) == Some(m) <==> MapSays(MembersIn(v), m)
  {
    hide M.PairsOf, Adds, MapSays;
    AddsIsMap(MembersIn(v), m);
    if v.Obj? {
      PairsMean(v.members, map[], m);
    } else {
      AddsNothing(map[], m);
    }
  }

  lemma {:induction false} SingleMeans(env: Env, f: Field, v: Tree, slot: Slot, depth: nat)
    requires SchemaOk(env.schema) && Valid(v) && KindOk(f.kind) && (f.card.Implicit? || f.card.Optional?) && v != Lit(NULL)
    ensures M.PayloadOf(env, f, v, depth).Some? && SlotOf(f, M.PayloadOf(env, f, v, depth).value) == slot <==> Holds(env, f, v, slot, depth)
    decreases 100 - depth, 2, 0
  {
    hide SchemaOk, M.ItemOf, KindOk, Means, Stored, IsZero, ZeroSlot, IsDropped;
    Words();
    if slot.One? {
      ItemMeans(env, f.kind, v, slot.v, depth);
    } else if slot.Pointer? && slot.p.Some? {
      ItemMeans(env, f.kind, v, slot.p.value, depth);
    }
  }

  /** What a field is given, and what it then holds. */
  lemma {:induction false} PayloadMeans(env: Env, f: Field, v: Tree, slot: Slot, depth: nat)
    requires SchemaOk(env.schema) && Valid(v) && KindOk(f.kind) && !f.card.Member?
    ensures M.PayloadOf(env, f, v, depth).Some? && SlotOf(f, M.PayloadOf(env, f, v, depth).value) == slot <==> Holds(env, f, v, slot, depth)
    decreases 100 - depth, 3, 0
  {
    hide SchemaOk, M.ItemOf, M.ListOf, M.PairsOf, KindOk, ListSays, Means, MapSays, Stored, ElementsOf, EntriesOf, IsZero, ZeroSlot;
    Words();
    ZeroIs(f, slot);
    if v != Lit(NULL) {
      match f.card
      case Repeated =>
        if slot.Many? && v.Arr? {
          assert ValidElems(v.elems);
          if depth < 100 {
            ListMeans(env, f.kind, v.elems, slot.vs, depth + 1);
          }
        } else if slot.Many? && v.EmptyArr? {
          ListEnd(env, f.kind, slot.vs, depth + 1);
        }
      case StringMap =>
        if slot.Pairs? && (v.Obj? || v.EmptyObj?) {
          MapMeans(v, slot.m);
        }
      case Implicit => SingleMeans(env, f, v, slot, depth);
      case Optional => SingleMeans(env, f, v, slot, depth);
    }
  }

  lemma {:induction false} ChoiceMeans(env: Env, f: Field, v: Tree, x: Value, depth: nat)
    requires SchemaOk(env.schema) && Valid(v) && KindOk(f.kind) && f.card.Member?
    ensures var p := M.PayloadOf(env, f, v, depth);
            && (IsNull(v) ==> p == Some(Null))
            && (!IsNull(v) ==> (p.Some? ==> p.value.Single?) && (p.Some? && Stored(p.value.item) == x <==> Means(env, f.kind, v, x, depth)))
    decreases 100 - depth, 3, 0
  {
    hide SchemaOk, M.ItemOf, KindOk, Means, Stored;
    Words();
    ItemMeans(env, f.kind, v, x, depth);
  }

  // ---------------------------------------------------------------- the decoder, member by member

  lemma NamedIs(f: Field, e: Entry)
    requires ValidEntry(e)
    ensures Named(f, e) <==> Names(f, Meaning(e.head.key))
  {
    hide Meaning;
  }

  /** At most one field goes by the key of a member. */
  lemma OneNamed(schema: Schema, t: nat, e: Entry, i: nat)
    requires SchemaOk(schema) && ValidEntry(e) && i < |schema(t).fields|
    ensures Named(schema(t).fields[i], e) <==> Find(schema(t), Meaning(e.head.key)) == Some(i)
  {
    FieldIsOk(schema, t, i);
    NamedIs(schema(t).fields[i], e);
    hide SchemaOk, Meaning;
    if Named(schema(t).fields[i], e) {
      FindUnique(schema(t), Meaning(e.head.key), i);
    }
  }

  /** The act of a member is for the field that goes by its key, and a null exactly where it gives null. */
  ghost predicate Mirrors(fields: seq<Field>, e: Entry, a: A.Act) {
    && (a.Assign? ==> a.field < |fields| && Named(fields[a.field], e) && (a.p.Null? <==> IsNull(e.v)))
    && (forall i :: 0 <= i < |fields| && Named(fields[i], e) ==> a.Assign? && a.field == i)
  }

  lemma UnknownAct(env: Env, t: nat, e: Entry, depth: nat)
    requires SchemaOk(env.schema) && ValidEntry(e) && Find(env.schema(t), Meaning(e.head.key)).None?
    ensures forall i :: 0 <= i < |env.schema(t).fields| ==> !Named(env.schema(t).fields[i], e)
    ensures ActOf(env, t, e, depth) == if env.discard && Shallow(e.v, depth) then Some(A.Skip) else None
  {
    forall i | 0 <= i < |env.schema(t).fields| ensures !Named(env.schema(t).fields[i], e) {
      OneNamed(env.schema, t, e, i);
    }
    hide SchemaOk, Meaning, Find, M.PayloadOf;
  }

  lemma KnownAct(env: Env, t: nat, e: Entry, depth: nat, i: nat)
    requires SchemaOk(env.schema) && ValidEntry(e) && Find(env.schema(t), Meaning(e.head.key)) == Some(i)
    ensures i < |env.schema(t).fields| && Named(env.schema(t).fields[i], e) && KindOk(env.schema(t).fields[i].kind) && Valid(e.v)
    ensures forall j :: 0 <= j < |env.schema(t).fields| && Named(env.schema(t).fields[j], e) ==> j == i
    ensures var p := M.PayloadOf(env, env.schema(t).fields[i], e.v, depth);
            ActOf(env, t, e, depth) == if p.Some? then Some(A.Assign(i, p.value)) else None
  {
    OneNamed(env.schema, t, e, i);
    FieldKind(env.schema, t, i);
    forall j | 0 <= j < |env.schema(t).fields| && Named(env.schema(t).fields[j], e) ensures j == i {
      OneNamed(env.schema, t, e, j);
    }
    hide SchemaOk, Meaning, Find, M.PayloadOf;
  }

  lemma NullPayload(env: Env, f: Field, v: Tree, depth: nat)
    requires Valid(v) && M.PayloadOf(env, f, v, depth).Some?
    ensures M.PayloadOf(env, f, v, depth).value.Null? <==> IsNull(v)
  {
    Words();
    hide M.ItemOf, M.ListOf, M.PairsOf;
  }

  lemma ActMirrors(env: Env, t: nat, e: Entry, depth: nat)
    requires SchemaOk(env.schema) && ValidEntry(e) && ActOf(env, t, e, depth).Some?
    ensures Mirrors(env.schema(t).fields, e, ActOf(env, t, e, depth).value)
  {
    hide SchemaOk, Meaning, Find, M.PayloadOf, ActOf, Named, Valid, IsNull, KindOk;
    var i := Find(env.schema(t), Meaning(e.head.key));
    if i.None? {
      UnknownAct(env, t, e, depth);
    } else {
      KnownAct(env, t, e, depth, i.value);
      NullPayload(env, env.schema(t).fields[i.value], e.v, depth);
    }
  }

  /** The act is done in `m`. */
  ghost predicate Done(mt: MessageType, a: A.Act, m: Message)
    requires Shaped(mt, m)
  {
    a.Assign? ==>
      && a.field < |mt.fields|
      && if mt.fields[a.field].card.Member? then
           a.p.Null? || (mt.fields[a.field].card.oneof in m.oneofs && m.oneofs[mt.fields[a.field].card.oneof] == A.ChoiceOf(a))
         else m.slots[a.field] == SlotOf(mt.fields[a.field], a.p)
  }

  lemma {:induction false} FieldMeans(env: Env, t: nat, i: nat, v: Tree, m: Message, depth: nat)
    requires SchemaOk(env.schema) && Valid(v) && i < |env.schema(t).fields| && KindOk(env.schema(t).fields[i].kind)
    requires Shaped(env.schema(t), m)
    ensures var p := M.PayloadOf(env, env.schema(t).fields[i], v, depth);
            p.Some? && Done(env.schema(t), A.Assign(i, p.value), m) <==> FieldSays(env, env.schema(t).fields[i], i, v, m, depth)
    decreases 100 - depth, 4, 0
  {
    var f := env.schema(t).fields[i];
    hide SchemaOk, M.PayloadOf, KindOk, Means, Stored, IsNull, Valid, Holds, SlotOf;
    if f.card.Member? {
      var o := f.card.oneof;
      ChoiceMeans(env, f, v, if o in m.oneofs then m.oneofs[o].v else Num(0), depth);
      if !IsNull(v) && M.PayloadOf(env, f, v, depth).Some? {
        NullPayload(env, f, v, depth);
      }
    } else {
      PayloadMeans(env, f, v, m.slots[i], depth);
    }
  }

  lemma {:induction false} EntryMeans(env: Env, t: nat, e: Entry, m: Message, depth: nat)
    requires SchemaOk(env.schema) && ValidEntry(e) && Shaped(env.schema(t), m)
    ensures ActOf(env, t, e, depth).Some? && Done(env.schema(t), ActOf(env, t, e, depth).value, m) <==> EntrySays(env, t, e, m, depth)
    decreases 100 - depth, 5, 0
  {
    hide SchemaOk, Meaning, Find, M.PayloadOf, ActOf, Named, Valid, IsNull, KindOk, FieldSays, SlotOf, A.ChoiceOf, Shallow;
    var i := Find(env.schema(t), Meaning(e.head.key));
    if i.None? {
      UnknownAct(env, t, e, depth);
    } else {
      KnownAct(env, t, e, depth, i.value);
      FieldMeans(env, t, i.value, e.v, m, depth);
    }
  }

  lemma PopulatesIs(mt: MessageType, e: Entry, a: A.Act, i: nat, o: nat)
    requires Mirrors(mt.fields, e, a)
    ensures Chooses(mt.fields, e, i, o) <==> A.Populates(mt, a, o) && a.field == i
  {
    hide Named, IsNull;
  }

  lemma ClashIs(mt: MessageType, e: Entry, a: A.Act, e': Entry, a': A.Act)
    requires Mirrors(mt.fields, e, a) && Mirrors(mt.fields, e', a')
    ensures Clash(mt.fields, e, e') <==> !A.Compatible(mt, a, a')
  {
    hide Chooses, A.Populates, Named, IsNull;
    if i: nat, j: nat, o: nat :| Chooses(mt.fields, e, i, o) && Chooses(mt.fields, e', j, o) {
      PopulatesIs(mt, e, a, i, o);
      PopulatesIs(mt, e', a', j, o);
    }
    if o :| A.Populates(mt, a, o) && A.Populates(mt, a', o) {
      MustAssign(mt, a, o);
      MustAssign(mt, a', o);
      PopulatesIs(mt, e, a, a.field, o);
      PopulatesIs(mt, e', a', a'.field, o);
    }
    if a.Assign? && a'.Assign? && a.field == a'.field {
      assert Named(mt.fields[a.field], e) && Named(mt.fields[a.field], e');
    }
  }

  lemma MustAssign(mt: MessageType, a: A.Act, o: nat)
    requires A.Populates(mt, a, o)
    ensures a.Assign?
  {
  }

  ghost predicate AllMirror(fields: seq<Field>, es: seq<Entry>, acts: seq<A.Act>) {
    |acts| == |es| && forall k :: 0 <= k < |es| ==> Mirrors(fields, es[k], acts[k])
  }

  lemma DuplicatesAre(mt: MessageType, es: seq<Entry>, acts: seq<A.Act>)
    requires AllMirror(mt.fields, es, acts)
    ensures A.NoDuplicates(mt, acts) <==> forall j, k :: 0 <= j < k < |es| ==> !Clash(mt.fields, es[j], es[k])
  {
    hide A.Compatible, Clash, Mirrors;
    forall j, k | 0 <= j < k < |es| ensures Clash(mt.fields, es[j], es[k]) <==> !A.Compatible(mt, acts[j], acts[k]) {
      ClashIs(mt, es[j], acts[j], es[k], acts[k]);
    }
  }

  /** What the object says besides what its members say one by one. */
  ghost predicate Elsewhere(fields: seq<Field>, es: seq<Entry>, m: Message)
    requires |m.slots| == |fields|
  {
    && (forall i :: 0 <= i < |fields| && (fields[i].card.Member? || Unmentioned(fields[i], es)) ==> IsZero(fields[i], m.slots[i]))
    && (forall o :: o in m.oneofs ==> Chosen(fields, es, o))
  }

  ghost predicate AllDone(mt: MessageType, acts: seq<A.Act>, m: Message)
    requires Shaped(mt, m)
  {
    forall k :: 0 <= k < |acts| ==> Done(mt, acts[k], m)
  }

  lemma ChosenIs(mt: MessageType, es: seq<Entry>, acts: seq<A.Act>, o: nat)
    requires AllMirror(mt.fields, es, acts)
    ensures Chosen(mt.fields, es, o) <==> exists a :: a in acts && A.Populates(mt, a, o)
  {
    hide Chooses, A.Populates, Mirrors;
    if k, i: nat :| 0 <= k < |es| && Chooses(mt.fields, es[k], i, o) {
      PopulatesIs(mt, es[k], acts[k], i, o);
      assert acts[k] in acts;
    }
    if a :| a in acts && A.Populates(mt, a, o) {
      var k :| 0 <= k < |acts| && acts[k] == a;
      MustAssign(mt, a, o);
      PopulatesIs(mt, es[k], acts[k], a.field, o);
    }
  }

  lemma UnmentionedIs(mt: MessageType, es: seq<Entry>, acts: seq<A.Act>, i: nat)
    requires AllMirror(mt.fields, es, acts) && i < |mt.fields|
    ensures Unmentioned(mt.fields[i], es) <==> forall a :: a in acts && a.Assign? ==> a.field != i
  {
    hide Named, IsNull;
    if !Unmentioned(mt.fields[i], es) {
      var k :| 0 <= k < |es| && Named(mt.fields[i], es[k]);
      assert Mirrors(mt.fields, es[k], acts[k]) && acts[k] in acts;
    }
    if a :| a in acts && a.Assign? && a.field == i {
      var k :| 0 <= k < |acts| && acts[k] == a;
      assert Mirrors(mt.fields, es[k], acts[k]);
    }
  }

  lemma SlotDone(mt: MessageType, acts: seq<A.Act>, m: Message, i: nat)
    requires Shaped(mt, m) && i < |mt.fields| && AllDone(mt, acts, m)
    requires (mt.fields[i].card.Member? || forall a :: a in acts && a.Assign? ==> a.field != i) ==> m.slots[i] == ZeroSlot(mt.fields[i])
    ensures A.SlotDescribed(mt, acts, i, m.slots[i])
  {
    hide SlotOf, ZeroSlot;
    forall a | a in acts && a.Assign? && a.field == i ensures Done(mt, a, m) {
      var k :| 0 <= k < |acts| && acts[k] == a;
    }
  }

  lemma ChoiceDone(mt: MessageType, acts: seq<A.Act>, m: Message, a: A.Act, o: nat)
    requires Shaped(mt, m) && AllDone(mt, acts, m) && a in acts && A.Populates(mt, a, o)
    ensures o in m.oneofs && m.oneofs[o] == A.ChoiceOf(a)
  {
    var k :| 0 <= k < |acts| && acts[k] == a;
    assert Done(mt, acts[k], m);
    hide A.ChoiceOf;
  }

  /** The message that holds what the acts assign, seen from the members. */
  lemma DescribesIs(mt: MessageType, es: seq<Entry>, acts: seq<A.Act>, m: Message)
    requires Shaped(mt, m) && AllMirror(mt.fields, es, acts) && forall a :: a in acts ==> A.Typed(mt, a)
    ensures A.Describes(mt, acts, m) <==> AllDone(mt, acts, m) && Elsewhere(mt.fields, es, m)
  {
    hide Unmentioned, Chosen, A.Populates, ZeroSlot, IsZero, AllMirror, A.ChoiceOf, AllDone, A.SlotDescribed, A.Typed;
    forall o ensures Chosen(mt.fields, es, o) <==> exists a :: a in acts && A.Populates(mt, a, o) {
      ChosenIs(mt, es, acts, o);
    }
    if A.Describes(mt, acts, m) {
      DescribedDone(mt, acts, m);
      forall i | 0 <= i < |mt.fields| && (mt.fields[i].card.Member? || Unmentioned(mt.fields[i], es)) ensures IsZero(mt.fields[i], m.slots[i]) {
        UnmentionedIs(mt, es, acts, i);
        DescribedZero(mt, acts, m, i);
      }
    }
    if AllDone(mt, acts, m) && Elsewhere(mt.fields, es, m) {
      forall i | 0 <= i < |mt.fields| ensures A.SlotDescribed(mt, acts, i, m.slots[i]) {
        UnmentionedIs(mt, es, acts, i);
        ZeroIs(mt.fields[i], m.slots[i]);
        SlotDone(mt, acts, m, i);
      }
      forall a, o | a in acts && A.Populates(mt, a, o) ensures o in m.oneofs && m.oneofs[o] == A.ChoiceOf(a) {
        ChoiceDone(mt, acts, m, a, o);
      }
    }
  }

  lemma DescribedDone(mt: MessageType, acts: seq<A.Act>, m: Message)
    requires A.Describes(mt, acts, m) && forall a :: a in acts ==> A.Typed(mt, a)
    ensures AllDone(mt, acts, m)
  {
    hide SlotOf, ZeroSlot, A.ChoiceOf;
    forall k | 0 <= k < |acts| ensures Done(mt, acts[k], m) {
      var a := acts[k];
      assert a in acts && A.Typed(mt, a);
      if a.Assign? {
        assert A.SlotDescribed(mt, acts, a.field, m.slots[a.field]);
        if mt.fields[a.field].card.Member? && !a.p.Null? {
          assert A.Populates(mt, a, mt.fields[a.field].card.oneof);
        }
      }
    }
  }

  lemma DescribedZero(mt: MessageType, acts: seq<A.Act>, m: Message, i: nat)
    requires A.Describes(mt, acts, m) && i < |mt.fields|
    requires mt.fields[i].card.Member? || forall a :: a in acts && a.Assign? ==> a.field != i
    ensures IsZero(mt.fields[i], m.slots[i])
  {
    assert A.SlotDescribed(mt, acts, i, m.slots[i]);
    ZeroIs(mt.fields[i], m.slots[i]);
  }

  /** The acts come to `m` exactly if the object says so. */
  lemma RunMeans(mt: MessageType, es: seq<Entry>, acts: seq<A.Act>, m: Message)
    requires AllMirror(mt.fields, es, acts) && forall a :: a in acts ==> A.Typed(mt, a)
    ensures A.Run(mt, acts, {}, {}, Fresh(mt)) == Some(m) <==>
              && |m.slots| == |mt.fields|
              && (forall j, k :: 0 <= j < k < |es| ==> !Clash(mt.fields, es[j], es[k]))
              && AllDone(mt, acts, m) && Elsewhere(mt.fields, es, m)
  {
    hide A.Run, A.NoDuplicates, A.Describes, A.Typed, Fresh, Clash, AllMirror, AllDone, Elsewhere;
    A.RunExact(mt, acts);
    DuplicatesAre(mt, es, acts);
    var r := A.Run(mt, acts, {}, {}, Fresh(mt));
    if |m.slots| == |mt.fields| {
      DescribesIs(mt, es, acts, m);
      if r.Some? && A.Describes(mt, acts, m) {
        A.DescribesUnique(mt, acts, m, r.value);
      }
    }
  }

  /** The members say one by one what their acts do. */
  ghost predicate AllSay(env: Env, t: nat, es: seq<Entry>, m: Message, depth: nat)
    requires |m.slots| == |env.schema(t).fields|
  {
    forall k :: 0 <= k < |es| ==> EntrySays(env, t, es[k], m, depth)
  }

  lemma SaysUnfolds(env: Env, t: nat, v: Tree, m: Message, depth: nat)
    ensures var fields, es := env.schema(t).fields, MembersIn(v);
            Says(env, t, v, m, depth) <==>
              && depth < 100 && (v.Obj? || v.EmptyObj?) && |m.slots| == |fields|
              && AllSay(env, t, es, m, depth + 1)
              && (forall j, k :: 0 <= j < k < |es| ==> !Clash(fields, es[j], es[k]))
              && Elsewhere(fields, es, m)
  {
    hide EntrySays, Clash, Chosen, Unmentioned, IsZero, MembersIn;
  }

  lemma {:induction false} EntriesMean(env: Env, t: nat, es: seq<Entry>, m: Message, depth: nat)
    requires SchemaOk(env.schema) && ValidEntries(es) && Shaped(env.schema(t), m)
    ensures (forall k :: 0 <= k < |es| ==> ActOf(env, t, es[k], depth).Some? && Done(env.schema(t), ActOf(env, t, es[k], depth).value, m)) <==>
            AllSay(env, t, es, m, depth)
    decreases 100 - depth, 6, 0
  {
    hide SchemaOk, ActOf, Done, EntrySays, ValidEntry;
    forall k | 0 <= k < |es|
      ensures ActOf(env, t, es[k], depth).Some? && Done(env.schema(t), ActOf(env, t, es[k], depth).value, m) <==> EntrySays(env, t, es[k], m, depth)
    {
      EntryMeans(env, t, es[k], m, depth);
    }
  }

  /** The acts of an object, if all its members have one. */
  lemma ActsAre(env: Env, t: nat, v: Tree, depth: nat) returns (acts: Option<seq<A.Act>>)
    requires SchemaOk(env.schema) && Valid(v) && (v.Obj? || v.EmptyObj?) && depth < 100
    ensures ValidEntries(MembersIn(v))
    ensures acts.None? ==> M.MessageOf(env, t, v, depth).None? && exists k :: 0 <= k < |MembersIn(v)| && ActOf(env, t, MembersIn(v)[k], depth + 1).None?
    ensures acts.Some? ==>
              && AllMirror(env.schema(t).fields, MembersIn(v), acts.value) && (forall a :: a in acts.value ==> A.Typed(env.schema(t), a))
              && M.MessageOf(env, t, v, depth) == A.Run(env.schema(t), acts.value, {}, {}, Fresh(env.schema(t)))
              && forall k :: 0 <= k < |acts.value| ==> ActOf(env, t, MembersIn(v)[k], depth + 1) == Some(acts.value[k])
  {
    hide SchemaOk, M.MessageOf, ActOf, A.Run, A.Typed, EntriesOf, Mirrors, M.ActsOf, ValidEntry, Fresh, Valid;
    MessageIsRun(env, t, v, depth);
    if v.Obj? {
      ObjMembers(v);
      EntriesValid(v.members);
      ActsByEntry(env, t, EntriesOf(v.members), depth + 1);
      acts := M.ActsOf(env, t, v.members, depth + 1);
      if acts.Some? {
        forall k | 0 <= k < |acts.value| ensures Mirrors(env.schema(t).fields, MembersIn(v)[k], acts.value[k]) {
          ActMirrors(env, t, MembersIn(v)[k], depth + 1);
        }
      }
    } else {
      acts := Some([]);
    }
  }

  lemma ObjMembers(v: Tree)
    requires Valid(v) && v.Obj?
    ensures ValidMembers(v.members) && EntriesOf(v.members) != [] && MembersFrom(EntriesOf(v.members)) == v.members
  {
  }

  lemma MessageIsRun(env: Env, t: nat, v: Tree, depth: nat)
    requires Valid(v) && (v.Obj? || v.EmptyObj?) && depth < 100
    ensures v.EmptyObj? ==> M.MessageOf(env, t, v, depth) == A.Run(env.schema(t), [], {}, {}, Fresh(env.schema(t)))
    ensures v.Obj? ==> ValidMembers(v.members)
    ensures v.Obj? ==>
              var acts := M.ActsOf(env, t, v.members, depth + 1);
              if acts.None? then M.MessageOf(env, t, v, depth).None?
              else (forall a :: a in acts.value ==> A.Typed(env.schema(t), a)) &&
                   M.MessageOf(env, t, v, depth) == A.Run(env.schema(t), acts.value, {}, {}, Fresh(env.schema(t)))
  {
    hide M.ActsOf, A.Typed, Fresh;
  }

  /** The decoder's meaning of an object is what the object says, nothing more and nothing less. */
  lemma {:induction false} MeaningExact(env: Env, t: nat, v: Tree, m: Message, depth: nat)
    requires SchemaOk(env.schema) && Valid(v)
    ensures M.MessageOf(env, t, v, depth) == Some(m) <==> Says(env, t, v, m, depth)
    decreases 100 - depth, 0, 0
  {
    hide *;
    SaysUnfolds(env, t, v, m, depth);
    NoMeaning(env, t, v, depth);
    if depth < 100 && (v.Obj? || v.EmptyObj?) {
      var mt, es := env.schema(t), MembersIn(v);
      var acts := ActsAre(env, t, v, depth);
      if |m.slots| == |mt.fields| {
        ShapedIs(mt, m);
        EntriesMean(env, t, es, m, depth + 1);
        if acts.Some? {
          RunMeans(mt, es, acts.value, m);
          AllDoneIs(env, t, es, acts.value, m, depth + 1);
        }
      } else if acts.Some? {
        RunMeans(mt, es, acts.value, m);
      }
    }
  }

  lemma ShapedIs(mt: MessageType, m: Message)
    ensures Shaped(mt, m) <==> |m.slots| == |mt.fields|
  {
  }

  lemma NoMeaning(env: Env, t: nat, v: Tree, depth: nat)
    requires Valid(v)
    ensures depth >= 100 || (!v.Obj? && !v.EmptyObj?) ==> M.MessageOf(env, t, v, depth).None?
  {
    hide M.ActsOf;
  }

  lemma AllDoneIs(env: Env, t: nat, es: seq<Entry>, acts: seq<A.Act>, m: Message, depth: nat)
    requires Shaped(env.schema(t), m) && AllMirror(env.schema(t).fields, es, acts)
    requires forall k :: 0 <= k < |acts| ==> ActOf(env, t, es[k], depth) == Some(acts[k])
    ensures AllDone(env.schema(t), acts, m) <==>
            forall k :: 0 <= k < |es| ==> ActOf(env, t, es[k], depth).Some? && Done(env.schema(t), ActOf(env, t, es[k], depth).value, m)
  {
    hide Done, ActOf, Mirrors;
  }

  // ---------------------------------------------------------------- whole inputs

  /** The punctuation of JSON, and what ends a literal or a number. */
  lemma Punctuation(c: byte)
    ensures [LBRACE, RBRACE, LBRACKET, RBRACKET, COMMA, COLON, QUOTE, BACKSLASH] == Ascii("{}[],:\"\\")
    ensures [MINUS, PLUS, DOT, ZERO, NINE, UNDERSCORE, SLASH] == Ascii("-+.09_/")
    ensures IsWs(c) <==> c as char in " \t\r\n"
    ensures IsTerminator(c) <==> c as char in ",}] \t\r\n"
  {
  }

  /** `s` is blank, then the text of an object that says `m`, then `rest`. */
  ghost predicate Reads(env: Env, t: nat, s: bytes, m: Message, rest: bytes, depth: nat) {
    exists w, v :: Blank(w) && Valid(v) && s == w + TreeTo(v, rest) && Says(env, t, v, m, depth)
  }

  lemma ReadsDenotes(env: Env, t: nat, s: bytes, m: Message, rest: bytes, depth: nat)
    requires SchemaOk(env.schema)
    ensures Reads(env, t, s, m, rest, depth) <==> Denotes(env, t, s, m, rest, depth)
  {
    hide SchemaOk, Valid, TreeTo, M.MessageOf, Says, AllWs, Blank;
    if w, v :| Blank(w) && Valid(v) && s == w + TreeTo(v, rest) && Says(env, t, v, m, depth) {
      BlankIsWs(w);
      MeaningExact(env, t, v, m, depth);
    }
    if w, v :| AllWs(w) && Valid(v) && s == w + TreeTo(v, rest) && M.MessageOf(env, t, v, depth) == Some(m) {
      BlankIsWs(w);
      MeaningExact(env, t, v, m, depth);
    }
  }

  /** The generated decoder reads exactly what the text says. */
  lemma DecoderReads(env: Env, t: nat, s: bytes, m: Message, rest: bytes, depth: nat)
    requires SchemaOk(env.schema)
    ensures SlowMessage(env, t, s, depth) == Ok(m, rest) <==> Reads(env, t, s, m, rest, depth)
  {
    hide *;
    ReadsDenotes(env, t, s, m, rest, depth);
    DecoderExact(env, t, s, m, rest, depth);
  }

  /** The ordered decoder, where it does not give up, reads what the text says, and refuses a text that says nothing. */
  lemma FastReads(env: Env, t: nat, s: bytes, m: Message, rest: bytes, depth: nat)
    requires SchemaOk(env.schema) && !FastMessage(env, t, s, depth).GiveUp?
    ensures FastMessage(env, t, s, depth) == FastDone(m, rest) <==> Reads(env, t, s, m, rest, depth)
  {
    hide SchemaOk, FastMessage, SlowMessage, Reads;
    Refine.FastRefines(env, t, s, depth);
    DecoderReads(env, t, s, m, rest, depth);
  }

  /** Nothing but white space is left exactly if skipping it leaves nothing. */
  lemma BlankRest(s: bytes)
    ensures SkipWs(s) == [] <==> Blank(s)
  {
    BlankIsWs(s);
    SkipWsSplit(s);
    if AllWs(s) {
      SkipWsOver(s, []);
      assert s + [] == s;
    }
  }

  lemma FinishIs(r: Read<Message>, m: Message)
    ensures Finish(r) == Some(m) <==> r.Ok? && r.value == m && Blank(r.rest)
  {
    if r.Ok? {
      BlankRest(r.rest);
    }
    hide Blank, SkipWs;
  }

  /**
   Unmarshal accepts an input exactly if it is one object with nothing but white space around it, and
   gives the one message that the object says.
   */
  lemma UnmarshalReads(env: Env, t: nat, data: bytes, m: Message)
    requires SchemaOk(env.schema)
    ensures Unmarshal(env, t, data) == Some(m) <==> exists x :: Blank(x) && Reads(env, t, data, m, x, 0)
  {
    hide SchemaOk, Unmarshal, SlowMessage, Reads, Blank, Finish;
    Refine.EntryIsSlow(env, t, data);
    var r := SlowMessage(env, t, data, 0);
    FinishIs(r, m);
    if r.Ok? {
      DecoderReads(env, t, data, m, r.rest, 0);
    }
    if x :| Blank(x) && Reads(env, t, data, m, x, 0) {
      DecoderReads(env, t, data, m, x, 0);
    }
  }

  /** The same, with the meaning of the parsed object. */
  lemma UnmarshalDenotes(env: Env, t: nat, data: bytes, m: Message)
    requires SchemaOk(env.schema)
    ensures Unmarshal(env, t, data) == Some(m) <==> exists w :: AllWs(w) && Denotes(env, t, data, m, w, 0)
  {
    hide *;
    UnmarshalReads(env, t, data, m);
    forall w ensures Blank(w) && Reads(env, t, data, m, w, 0) <==> AllWs(w) && Denotes(env, t, data, m, w, 0) {
      BlankIsWs(w);
      ReadsDenotes(env, t, data, m, w, 0);
    }
  }

  // ---------------------------------------------------------------- what is left out

  /** All that the members say of this field is null. */
  predicate OnlyNull(f: Field, es: seq<Entry>) {
    forall k :: 0 <= k < |es| && Named(f, es[k]) ==> IsNull(es[k].v)
  }

  /** No member chooses in the oneof `o`. */
  ghost predicate NoChoice(fields: seq<Field>, es: seq<Entry>, o: nat) {
    !Chosen(fields, es, o)
  }

  /** Fields that are not mentioned or set to null hold their zero value, and so do oneofs. */
  ghost predicate LeavesZero(fields: seq<Field>, es: seq<Entry>, m: Message)
    requires |m.slots| == |fields|
  {
    && (forall i :: 0 <= i < |fields| && OnlyNull(fields[i], es) ==> IsZero(fields[i], m.slots[i]))
    && (forall o :: NoChoice(fields, es, o) ==> o !in m.oneofs)
  }

  lemma SaysZero(env: Env, t: nat, v: Tree, m: Message, depth: nat)
    requires Says(env, t, v, m, depth)
    ensures |m.slots| == |env.schema(t).fields| && LeavesZero(env.schema(t).fields, MembersIn(v), m)
  {
    var fields, es := env.schema(t).fields, MembersIn(v);
    hide IsZero, Means, Clash, Chosen, Named, IsNull;
    forall i | 0 <= i < |fields| && OnlyNull(fields[i], es) ensures IsZero(fields[i], m.slots[i]) {
      if !fields[i].card.Member? && !Unmentioned(fields[i], es) {
        var k :| 0 <= k < |es| && Named(fields[i], es[k]);
        assert EntrySays(env, t, es[k], m, depth + 1);
        assert FieldSays(env, fields[i], i, es[k].v, m, depth + 1);
      }
    }
  }

  lemma {:induction false} EntriesAgain(es: seq<Entry>)
    requires es != []
    ensures EntriesOf(MembersFrom(es)) == es
  {
    if |es| > 1 {
      EntriesAgain(es[1..]);
      assert es == [es[0]] + es[1..];
    }
  }

  lemma MembersAgain(es: seq<Entry>)
    ensures MembersIn(ObjectOf(es)) == es
  {
    if es != [] {
      EntriesAgain(es);
    }
  }

  /** After any object the generated decoder leaves zero where the members say nothing or null. */
  lemma ZeroLeft(env: Env, t: nat, w: bytes, es: seq<Entry>, k: bytes, depth: nat)
    requires SchemaOk(env.schema) && AllWs(w) && ValidEntries(es) && SlowMessage(env, t, ObjectText(w, es, k), depth).Ok?
    ensures var m := SlowMessage(env, t, ObjectText(w, es, k), depth).value;
            |m.slots| == |env.schema(t).fields| && LeavesZero(env.schema(t).fields, es, m)
  {
    hide SchemaOk, SlowMessage, ValidEntries, AllWs, Says, M.MessageOf, TreeTo, Valid, ObjectOf, LeavesZero;
    ObjectValid(es);
    MembersAgain(es);
    M.MessageIs(env, t, w, ObjectOf(es), k, depth);
    var m := SlowMessage(env, t, ObjectText(w, es, k), depth).value;
    MeaningExact(env, t, ObjectOf(es), m, depth);
    SaysZero(env, t, ObjectOf(es), m, depth);
  }
}
