/**
 What the encoder prints, written out without any of the functions that the encoder is modelled with:
 which fields are printed, in which form, and how. The encoder prints exactly that.
 */
module Printing {
  import opened Bytes
  import opened Text
  import opened Schema
  import opened Encode
  import opened Order
  import N = Numbers
  import R = Reading

  // ---------------------------------------------------------------- strings and numbers

  /** One byte of a string: only quotes, backslashes and control characters are escaped. */
  function ShownByte(c: byte): bytes {
    if c as char == '"' then Ascii("\\\"")
    else if c as char == '\\' then Ascii("\\\\")
    else if c == 10 then Ascii("\\n")
    else if c == 13 then Ascii("\\r")
    else if c == 9 then Ascii("\\t")
    else if c < 32 then Ascii("\\u00") + [LOWER_DIGITS[c / 16] as int, LOWER_DIGITS[c % 16] as int]
    else [c]
  }

  function ShownBytes(s: bytes): bytes {
    if s == [] then [] else ShownByte(s[0]) + ShownBytes(s[1..])
  }

  function InQuotes(s: bytes): bytes {
    Ascii("\"") + s + Ascii("\"")
  }

  function ShownString(s: bytes): bytes {
    InQuotes(ShownBytes(s))
  }

  lemma ShownByteIs(c: byte)
    ensures EscapeByte(c) == ShownByte(c)
  {
    Escapes();
    if c < 32 {
      DigitShows(c / 16);
      DigitShows(c % 16);
    }
    hide Ascii, HexDigit;
  }

  lemma Escapes()
    ensures Ascii("\\\"") == [BACKSLASH, QUOTE] && Ascii("\\\\") == [BACKSLASH, BACKSLASH]
    ensures Ascii("\\n") == [BACKSLASH, 110] && Ascii("\\r") == [BACKSLASH, 114] && Ascii("\\t") == [BACKSLASH, 116]
    ensures Ascii("\\u00") == [BACKSLASH, 117, ZERO, ZERO]
  {
  }

  lemma DigitShows(v: int)
    requires 0 <= v < 16
    ensures HexDigit(v) == LOWER_DIGITS[v] as int
  {
  }

  lemma {:induction false} ShownBytesAre(s: bytes)
    ensures Escape(s) == ShownBytes(s)
  {
    hide EscapeByte, ShownByte;
    if s != [] {
      ShownByteIs(s[0]);
      ShownBytesAre(s[1..]);
    }
  }

  lemma QuoteShows(s: bytes)
    ensures Quote(s) == ShownString(s)
  {
    ShownBytesAre(s);
  }

  /** `s` writes the number `n` in decimal digits, without padding. */
  predicate Writes(s: bytes, n: int) {
    if n < 0 then s != [] && s[0] as char == '-' && WritesDigits(s[1..], -n) else WritesDigits(s, n)
  }

  predicate WritesDigits(s: bytes, n: nat) {
    R.Decimal(s) && (|s| > 1 ==> s[0] as char != '0') && R.ValueOf(s) == n
  }

  lemma {:induction false} DigitsUnique(s: bytes, n: nat)
    ensures WritesDigits(s, n) <==> s == N.Digits(n)
    decreases n
  {
    if s == N.Digits(n) {
      N.DigitsValue(n);
      R.ValueOfIs(s);
    }
    if WritesDigits(s, n) {
      var front := s[..|s| - 1];
      assert s == front + [s[|s| - 1]];
      LastDigit(s, n);
      hide R.ValueOf;
      if front != [] {
        FrontPositive(front);
        DigitsUnique(front, n / 10);
      }
    }
  }

  lemma LastDigit(s: bytes, n: nat)
    requires WritesDigits(s, n)
    ensures |s| == 1 ==> n == s[0] - 48
    ensures |s| > 1 ==> R.Decimal(s[..|s| - 1]) && R.ValueOf(s[..|s| - 1]) == n / 10 && s[|s| - 1] - 48 == n % 10 && s[0] as char != '0'
  {
  }

  lemma {:induction false} FrontPositive(s: bytes)
    requires R.Decimal(s) && s[0] as char != '0'
    ensures R.ValueOf(s) > 0
  {
    if |s| > 1 {
      FrontPositive(s[..|s| - 1]);
    }
  }

  /** The text of a number is the one that writes it. */
  lemma DecimalWrites(s: bytes, n: int)
    ensures Writes(s, n) <==> s == N.Decimal(n)
  {
    if n < 0 {
      if s != [] {
        DigitsUnique(s[1..], -n);
        assert s == [s[0]] + s[1..];
      }
      hide N.Digits, WritesDigits;
    } else {
      DigitsUnique(s, n);
    }
  }

  // ---------------------------------------------------------------- fields

  /** The first enum value with this number is the `i`th. */
  predicate IsFirst(values: seq<EnumValue>, n: int, i: nat) {
    i < |values| && values[i].number == n && forall j :: 0 <= j < i ==> values[j].number != n
  }

  /** An enum is printed by the first name of its number, and by the number exactly if it has no name. */
  ghost function ShownEnum(values: seq<EnumValue>, n: int): bytes {
    if i: nat :| IsFirst(values, n, i) then ShownString(values[i].name) else N.Decimal(n)
  }

  lemma {:induction false} EnumShows(values: seq<EnumValue>, n: int, i: nat)
    ensures IsFirst(values, n, i) ==> FindNumber(values, n) == Some(values[i].name)
    ensures (forall j :: 0 <= j < |values| ==> values[j].number != n) ==> FindNumber(values, n) == None
  {
    if values != [] && values[0].number != n {
      var tail := values[1..];
      EnumShows(tail, n, if i > 0 then i - 1 else 0);
      assert forall j :: 1 <= j < |values| ==> values[j] == tail[j - 1];
      assert i > 0 && IsFirst(values, n, i) ==> IsFirst(tail, n, i - 1);
    }
  }

  lemma {:induction false} SomeFirst(values: seq<EnumValue>, n: int) returns (i: nat)
    requires exists j :: 0 <= j < |values| && values[j].number == n
    ensures IsFirst(values, n, i)
  {
    i := 0;
    while values[i].number != n
      invariant i < |values| && forall j :: 0 <= j < i ==> values[j].number != n
      decreases |values| - i
    {
      i := i + 1;
    }
  }

  lemma EnumIs(values: seq<EnumValue>, n: int, k: bytes)
    ensures EnumTo(values, n, k) == ShownEnum(values, n) + k
  {
    hide ShownString, Quote, N.Decimal, FindNumber;
    if i: nat :| IsFirst(values, n, i) {
      forall j: nat | IsFirst(values, n, j) ensures EnumTo(values, n, k) == ShownString(values[j].name) + k {
        EnumShows(values, n, j);
        QuoteShows(values[j].name);
      }
    } else {
      if j :| 0 <= j < |values| && values[j].number == n {
        var i := SomeFirst(values, n);
      }
      EnumShows(values, n, 0);
    }
  }

  /** The parts with commas between them. */
  function Joined(parts: seq<bytes>): bytes {
    if parts == [] then []
    else if |parts| == 1 then parts[0]
    else parts[0] + (Ascii(",") + Joined(parts[1..]))
  }

  /** `a` comes first in byte order: at the first difference, or as a proper prefix. */
  ghost predicate Before(a: bytes, b: bytes) {
    exists p: nat :: BeforeAt(a, b, p)
  }

  predicate BeforeAt(a: bytes, b: bytes, p: nat) {
    p <= |a| && p < |b| && a[..p] == b[..p] && (p == |a| || a[p] < b[p])
  }

  /** The keys of a map, each once, in byte order. */
  ghost predicate InOrder(keys: seq<bytes>, s: set<bytes>) {
    && (forall i, j :: 0 <= i < j < |keys| ==> Before(keys[i], keys[j]))
    && (forall x :: x in s <==> x in keys)
  }

  lemma BeforeHead(a: bytes, b: bytes, p: nat)
    ensures BeforeAt(a, b, 0) <==> b != [] && (a == [] || a[0] < b[0])
    ensures p > 0 && BeforeAt(a, b, p) ==> a != [] && b != [] && a[0] == b[0]
  {
    if p > 0 && BeforeAt(a, b, p) {
      assert a[..p][0] == a[0] && b[..p][0] == b[0];
    }
  }

  lemma BeforeTail(a: bytes, b: bytes, p: nat)
    requires a != [] && b != [] && a[0] == b[0]
    ensures BeforeAt(a, b, p + 1) <==> BeforeAt(a[1..], b[1..], p)
  {
    if p + 1 <= |a| && p + 1 < |b| {
      assert a[..p + 1] == [a[0]] + a[1..][..p] && b[..p + 1] == [b[0]] + b[1..][..p];
      assert a[..p + 1][1..] == a[1..][..p] && b[..p + 1][1..] == b[1..][..p];
    }
  }

  lemma {:induction false} BeforeIs(a: bytes, b: bytes)
    ensures Before(a, b) <==> LexLess(a, b)
  {
    hide BeforeAt;
    BeforeHead(a, b, 0);
    if p: nat :| BeforeAt(a, b, p) {
      BeforeHead(a, b, p);
      if p > 0 {
        BeforeTail(a, b, p - 1);
        BeforeIs(a[1..], b[1..]);
      }
    }
    if LexLess(a, b) && a != [] && a[0] == b[0] {
      BeforeIs(a[1..], b[1..]);
      var p: nat :| BeforeAt(a[1..], b[1..], p);
      BeforeTail(a, b, p);
    }
  }

  /** The sorted keys are the keys in byte order, and there is no other such enumeration. */
  lemma KeysInOrder(keys: seq<bytes>, s: set<bytes>)
    ensures InOrder(keys, s) <==> keys == StringKeys(s)
  {
    hide LexLess, Before, StringKeys;
    forall a, b ensures Before(a, b) <==> LexLess(a, b) {
      BeforeIs(a, b);
    }
    var sorted := StringKeys(s);
    assert forall x :: x in sorted <==> x in Elements(sorted);
    assert InOrder(sorted, s);
    if InOrder(keys, s) {
      LexIsOrder();
      assert Elements(keys) == s;
      AscendingUnique(LexLess, keys, sorted);
    }
  }

  ghost function KeysIn(s: set<bytes>): (keys: seq<bytes>)
    ensures forall x :: x in keys <==> x in s
  {
    KeysInOrder(StringKeys(s), s);
    var keys :| InOrder(keys, s);
    keys
  }

  // ---------------------------------------------------------------- messages

  /** Whether a field is printed: a plain scalar unless it is empty, false or zero, anything else if it is there. */
  predicate IsPrinted(f: Field, i: nat, m: Message)
    requires i < |m.slots|
  {
    var slot := m.slots[i];
    match f.card
    case Member(o) => o in m.oneofs && m.oneofs[o].field == i
    case Optional => slot.Pointer? && slot.p.Some?
    case Repeated => slot.Many? && slot.vs != []
    case StringMap => slot.Pairs? && slot.m != map[]
    case Implicit =>
      if f.kind.MessageKind? then slot.Pointer? && slot.p.Some?
      else
        slot.One? &&
        match slot.v
        case Str(s) => s != []
        case Bool(b) => b
        case Num(n) => n != 0
        case Sub(_) => true
  }

  lemma PrintedIs(schema: Schema, t: nat, m: Message, i: nat)
    requires MessageOk(schema, t, m) && i < |schema(t).fields|
    ensures i < |m.slots| && (IsPrinted(schema(t).fields[i], i, m) <==> Emitted(schema(t).fields[i], i, m))
  {
    assert SlotOk(schema, schema(t).fields[i], m.slots[i]);
    hide MessageOk;
  }

  ghost function PairPart(m: map<bytes, bytes>, key: bytes): bytes
    requires key in m
  {
    ShownString(key) + (Ascii(":") + ShownString(m[key]))
  }

  ghost function PairParts(keys: seq<bytes>, m: map<bytes, bytes>): (parts: seq<bytes>)
    requires forall x :: x in keys ==> x in m
  {
    seq(|keys|, i requires 0 <= i < |keys| => PairPart(m, keys[i]))
  }

  ghost function ShownMap(m: map<bytes, bytes>): bytes {
    Ascii("{") + Joined(PairParts(KeysIn(m.Keys), m)) + Ascii("}")
  }

  /** The integers of 64 bits stand in quotes, all others do not. */
  ghost function ShownValue(schema: Schema, kind: Kind, v: Value): bytes
    decreases v, 0
  {
    match v
    case Str(s) => ShownString(s)
    case Bool(b) => if b then Ascii("true") else Ascii("false")
    case Num(n) =>
      if kind.EnumKind? then ShownEnum(kind.values, n)
      else if kind.Int64Kind? || kind.Uint64Kind? then InQuotes(N.Decimal(n))
      else N.Decimal(n)
    case Sub(m) => if kind.MessageKind? then Shown(schema, kind.message, m) else []
  }

  ghost function ShownList(schema: Schema, kind: Kind, vs: seq<Value>): bytes
    decreases vs, 1
  {
    Ascii("[") + Joined(seq(|vs|, i requires 0 <= i < |vs| => ShownValue(schema, kind, vs[i]))) + Ascii("]")
  }

  ghost function ShownSlot(schema: Schema, kind: Kind, slot: Slot): bytes
    decreases slot
  {
    match slot
    case One(v) => ShownValue(schema, kind, v)
    case Pointer(p) => if p.Some? then ShownValue(schema, kind, p.value) else []
    case Many(vs) => ShownList(schema, kind, vs)
    case Pairs(m) => ShownMap(m)
    case InOneof => []
  }

  ghost function ShownField(schema: Schema, f: Field, i: nat, m: Message): bytes
    requires i < |m.slots| && IsPrinted(f, i, m)
    decreases m, 0, 0
  {
    if f.card.Member? then ShownValue(schema, f.kind, m.oneofs[f.card.oneof].v) else ShownSlot(schema, f.kind, m.slots[i])
  }

  /** The members of the fields from `i` on. */
  ghost function ShownFrom(schema: Schema, fields: seq<Field>, m: Message, i: nat): seq<bytes>
    requires |m.slots| == |fields|
    decreases m, 1, |fields| - i
  {
    if i >= |fields| then []
    else if IsPrinted(fields[i], i, m) then
      [InQuotes(fields[i].json) + (Ascii(":") + ShownField(schema, fields[i], i, m))] + ShownFrom(schema, fields, m, i + 1)
    else ShownFrom(schema, fields, m, i + 1)
  }

  /** The text of a message: the members of its printed fields in declared order. */
  ghost function Shown(schema: Schema, t: nat, m: Message): bytes
    decreases m, 2, 0
  {
    if |m.slots| != |schema(t).fields| then []
    else Ascii("{") + Joined(ShownFrom(schema, schema(t).fields, m, 0)) + Ascii("}")
  }

  // ---------------------------------------------------------------- the encoder prints that

  lemma Signs()
    ensures Ascii("{") == [LBRACE] && Ascii("}") == [RBRACE] && Ascii("[") == [LBRACKET] && Ascii("]") == [RBRACKET]
    ensures Ascii(",") == [COMMA] && Ascii(":") == [COLON] && Ascii("\"") == [QUOTE]
    ensures Ascii("true") == TRUE && Ascii("false") == FALSE
  {
  }

  lemma {:induction false} ValueShows(schema: Schema, kind: Kind, v: Value, k: bytes)
    requires SchemaOk(schema) && ValueOk(schema, kind, v)
    ensures ValueTo(schema, kind, v, k) == ShownValue(schema, kind, v) + k
    decreases v, 0
  {
    hide SchemaOk, MessageOk, Quote, ShownString, N.Decimal, ShownEnum, EnumTo, MessageTo, Shown, Ascii;
    Signs();
    match kind
    case StringKind => QuoteShows(v.s);
    case BoolKind =>
    case Int32Kind =>
    case Int64Kind =>
    case Uint32Kind =>
    case Uint64Kind =>
    case EnumKind(values) => EnumIs(values, v.n, k);
    case MessageKind(t) => MessageShows(schema, t, v.m, k);
  }

  /** What stands behind a part that has been printed. */
  function Further(parts: seq<bytes>): bytes {
    if parts == [] then [] else Ascii(",") + Joined(parts)
  }

  lemma JoinedHead(part: bytes, parts: seq<bytes>, k: bytes)
    ensures Joined([part] + parts) + k == part + (Further(parts) + k)
    ensures Further([part] + parts) + k == [COMMA] + (part + (Further(parts) + k))
  {
    Signs();
    hide Ascii;
    var all := [part] + parts;
    assert all[1..] == parts;
    assert Joined(all) == part + Further(parts);
  }

  lemma JoinedNone(k: bytes)
    ensures Joined([]) + k == k && Further([]) + k == k
  {
  }

  ghost function PartsOf(schema: Schema, kind: Kind, vs: seq<Value>): seq<bytes> {
    seq(|vs|, i requires 0 <= i < |vs| => ShownValue(schema, kind, vs[i]))
  }

  lemma PartsFrom(schema: Schema, kind: Kind, vs: seq<Value>, i: nat)
    requires i <= |vs|
    ensures |PartsOf(schema, kind, vs)| == |vs|
    ensures PartsOf(schema, kind, vs)[i..] ==
            if i == |vs| then [] else [ShownValue(schema, kind, vs[i])] + PartsOf(schema, kind, vs)[i + 1..]
  {
    hide ShownValue;
  }

  lemma {:induction false} ListShows(schema: Schema, kind: Kind, vs: seq<Value>, i: nat, k: bytes)
    requires SchemaOk(schema) && i <= |vs| && forall j :: 0 <= j < |vs| ==> ValueOk(schema, kind, vs[j])
    ensures |PartsOf(schema, kind, vs)| == |vs|
    ensures ListTo(schema, kind, vs, i, k) ==
            (if i > 0 then Further(PartsOf(schema, kind, vs)[i..]) else Joined(PartsOf(schema, kind, vs)[i..])) + ([RBRACKET] + k)
    decreases vs, |vs| - i
  {
    hide SchemaOk, ValueOk, ValueTo, ShownValue, Joined, Further, PartsOf;
    PartsFrom(schema, kind, vs, i);
    if i == |vs| {
      JoinedNone([RBRACKET] + k);
    } else {
      var more := PartsOf(schema, kind, vs)[i + 1..];
      ListShows(schema, kind, vs, i + 1, k);
      ValueShows(schema, kind, vs[i], ListTo(schema, kind, vs, i + 1, k));
      JoinedHead(ShownValue(schema, kind, vs[i]), more, [RBRACKET] + k);
    }
  }

  lemma ListIs(schema: Schema, kind: Kind, vs: seq<Value>, k: bytes)
    ensures ShownList(schema, kind, vs) + k == [LBRACKET] + (Joined(PartsOf(schema, kind, vs)) + ([RBRACKET] + k))
  {
    Signs();
    hide Ascii, Joined, ShownValue;
  }

  lemma PairHead(key: bytes, value: bytes, k: bytes)
    ensures Quote(key) + ([COLON] + (Quote(value) + k)) == ShownString(key) + (Ascii(":") + ShownString(value)) + k
  {
    Signs();
    QuoteShows(key);
    QuoteShows(value);
    hide Quote, ShownString, Ascii;
  }

  lemma {:induction false} PairsShow(keys: seq<bytes>, i: nat, m: map<bytes, bytes>, k: bytes)
    requires i <= |keys| && forall x :: x in keys ==> x in m
    ensures |PairParts(keys, m)| == |keys|
    ensures PairsTo(keys, i, m, k) ==
            (if i > 0 then Further(PairParts(keys, m)[i..]) else Joined(PairParts(keys, m)[i..])) + ([RBRACE] + k)
    decreases |keys| - i
  {
    hide Joined, Further, Quote, ShownString, Ascii;
    var parts := PairParts(keys, m);
    if i == |keys| {
      assert parts[i..] == [];
      JoinedNone([RBRACE] + k);
    } else {
      PairsShow(keys, i + 1, m, k);
      assert parts[i..] == [PairPart(m, keys[i])] + parts[i + 1..];
      PairHead(keys[i], m[keys[i]], PairsTo(keys, i + 1, m, k));
      JoinedHead(PairPart(m, keys[i]), parts[i + 1..], [RBRACE] + k);
    }
  }

  lemma MapShows(m: map<bytes, bytes>, k: bytes)
    ensures MapTo(m, k) == ShownMap(m) + k
  {
    hide Joined, Further, PairsTo, Ascii, InOrder, ShownString, StringKeys;
    Signs();
    var keys := KeysIn(m.Keys);
    KeysSorted(m.Keys);
    PairsShow(keys, 0, m, k);
    var parts := PairParts(keys, m);
    assert parts[0..] == parts;
    assert ShownMap(m) == [LBRACE] + Joined(parts) + [RBRACE];
  }

  lemma KeysSorted(s: set<bytes>)
    ensures KeysIn(s) == StringKeys(s)
  {
    hide InOrder, StringKeys;
    KeysInOrder(StringKeys(s), s);
    KeysInOrder(KeysIn(s), s);
  }

  lemma {:induction false} SlotShows(schema: Schema, f: Field, slot: Slot, k: bytes)
    requires SchemaOk(schema) && SlotOk(schema, f, slot) && !f.card.Member? && slot != Pointer(None)
    ensures SlotTo(schema, f.kind, slot, k) == ShownSlot(schema, f.kind, slot) + k
    decreases slot
  {
    hide SchemaOk, ValueOk, ValueTo, ShownValue, ListTo, ShownList, MapTo, ShownMap, Joined, PartsOf;
    match slot
    case One(v) => ValueShows(schema, f.kind, v, k);
    case Pointer(p) => ValueShows(schema, f.kind, p.value, k);
    case Many(vs) =>
      ListShows(schema, f.kind, vs, 0, k);
      ListIs(schema, f.kind, vs, k);
      assert PartsOf(schema, f.kind, vs)[0..] == PartsOf(schema, f.kind, vs);
    case Pairs(m) => MapShows(m, k);
    case InOneof =>
  }

  lemma {:induction false} FieldShows(schema: Schema, t: nat, i: nat, m: Message, k: bytes)
    requires SchemaOk(schema) && MessageOk(schema, t, m) && i < |schema(t).fields| && i < |m.slots|
    requires Emitted(schema(t).fields[i], i, m) && IsPrinted(schema(t).fields[i], i, m)
    ensures FieldTo(schema, schema(t).fields[i], i, m, k) == ShownField(schema, schema(t).fields[i], i, m) + k
    decreases m, 0
  {
    var f := schema(t).fields[i];
    assert SlotOk(schema, f, m.slots[i]);
    if f.card.Member? {
      assert ChoiceOk(schema, schema(t), f.card.oneof, m.oneofs[f.card.oneof]);
      ValueShows(schema, f.kind, m.oneofs[f.card.oneof].v, k);
    } else {
      hide SchemaOk, MessageOk, SlotOk, SlotTo, ShownSlot;
      SlotShows(schema, f, m.slots[i], k);
    }
  }

  lemma PrefixShows(wrote: bool, json: bytes, part: bytes, parts: seq<bytes>, k: bytes)
    requires AllPlain(json)
    ensures PrefixTo(wrote, json, part + ((Further(parts)) + k)) ==
            (if wrote then Further([InQuotes(json) + (Ascii(":") + part)] + parts) else Joined([InQuotes(json) + (Ascii(":") + part)] + parts)) + k
  {
    Signs();
    hide Joined, Further, Ascii;
    var whole := InQuotes(json) + (Ascii(":") + part);
    JoinedHead(whole, parts, k);
    var rest := Further(parts) + k;
    assert [QUOTE] + (json + ([QUOTE, COLON] + (part + rest))) == whole + rest;
    assert [] + (whole + rest) == whole + rest;
  }

  lemma ShownStep(schema: Schema, fields: seq<Field>, m: Message, i: nat)
    requires |m.slots| == |fields| && i <= |fields|
    ensures ShownFrom(schema, fields, m, i) ==
            if i == |fields| then []
            else if IsPrinted(fields[i], i, m) then
              [InQuotes(fields[i].json) + (Ascii(":") + ShownField(schema, fields[i], i, m))] + ShownFrom(schema, fields, m, i + 1)
            else ShownFrom(schema, fields, m, i + 1)
  {
    hide ShownField, IsPrinted, InQuotes, Ascii;
  }

  lemma FieldsStep(schema: Schema, mt: MessageType, m: Message, i: nat, wrote: bool, k: bytes)
    requires |m.slots| == |mt.fields| && i <= |mt.fields|
    ensures FieldsTo(schema, mt, m, i, wrote, k) ==
            if i == |mt.fields| then k
            else if Emitted(mt.fields[i], i, m) then
              PrefixTo(wrote, mt.fields[i].json, FieldTo(schema, mt.fields[i], i, m, FieldsTo(schema, mt, m, i + 1, true, k)))
            else FieldsTo(schema, mt, m, i + 1, wrote, k)
  {
    hide FieldTo, Emitted, PrefixTo;
  }

  lemma {:induction false} FieldsShow(schema: Schema, t: nat, m: Message, i: nat, wrote: bool, k: bytes)
    requires SchemaOk(schema) && MessageOk(schema, t, m) && i <= |schema(t).fields| && |m.slots| == |schema(t).fields|
    ensures FieldsTo(schema, schema(t), m, i, wrote, k) ==
            (if wrote then Further(ShownFrom(schema, schema(t).fields, m, i)) else Joined(ShownFrom(schema, schema(t).fields, m, i))) + k
    decreases m, 1, |schema(t).fields| - i
  {
    hide *;
    var mt := schema(t);
    ShownStep(schema, mt.fields, m, i);
    FieldsStep(schema, mt, m, i, wrote, k);
    JoinedNone(k);
    if i < |mt.fields| {
      PrintedIs(schema, t, m, i);
      if IsPrinted(mt.fields[i], i, m) {
        var part := ShownField(schema, mt.fields[i], i, m);
        var parts := ShownFrom(schema, mt.fields, m, i + 1);
        FieldsShow(schema, t, m, i + 1, true, k);
        FieldShows(schema, t, i, m, Further(parts) + k);
        FieldIsOk(schema, t, i);
        PrefixShows(wrote, mt.fields[i].json, part, parts, k);
      } else {
        FieldsShow(schema, t, m, i + 1, wrote, k);
      }
    }
  }

  /** The encoder prints the message as shown. */
  lemma {:induction false} MessageShows(schema: Schema, t: nat, m: Message, k: bytes)
    requires SchemaOk(schema) && MessageOk(schema, t, m)
    ensures MessageTo(schema, t, m, k) == Shown(schema, t, m) + k
    decreases m, 2, 0
  {
    Signs();
    assert |m.slots| == |schema(t).fields|;
    hide SchemaOk, MessageOk, FieldsTo, ShownFrom, Joined, Ascii;
    FieldsShow(schema, t, m, 0, false, [RBRACE] + k);
    var parts := ShownFrom(schema, schema(t).fields, m, 0);
    assert Shown(schema, t, m) == [LBRACE] + Joined(parts) + [RBRACE];
    assert [LBRACE] + (Joined(parts) + ([RBRACE] + k)) == [LBRACE] + Joined(parts) + [RBRACE] + k;
  }
}
