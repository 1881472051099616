/**
 google.protobuf.Value, Struct and ListValue: the printer writeValue and the parser unmarshalValue,
 each calling itself through structs and lists, and their round trip up to the nesting limit.
 */
module Values {
  import opened Bytes
  import opened Text
  import opened Numbers
  import opened Cursor
  import opened Order
  import Json
  import RoundTrip

  /** A value; `Unset` has no kind. Finite numbers are the JSON number tokens they print as. */
  datatype PValue =
    | Unset
    | NullV
    | NumberV(token: bytes)
    | NotFinite
    | StringV(s: bytes)
    | BoolV(b: bool)
    | StructV(fields: map<bytes, PValue>)
    | ListV(vs: seq<PValue>)

  predicate IsToken(t: bytes) {
    NumberEnd(t) == Some([])
  }

  /** Every kind is set and every number is finite, so that printing does not fail. */
  ghost predicate Printable(v: PValue)
    decreases v
  {
    match v
    case Unset => false
    case NotFinite => false
    case NumberV(t) => IsToken(t)
    case StructV(m) => forall key :: key in m ==> Printable(m[key])
    case ListV(vs) => forall i :: 0 <= i < |vs| ==> Printable(vs[i])
    case _ => true
  }

  // ---------------------------------------------------------------- printing

  function Opened(open: byte, body: Option<bytes>): Option<bytes> {
    match body case None => None case Some(s) => Some([open] + s)
  }

  /** The text of a value followed by `k`; there is none when printing fails. */
  ghost function WriteTo(v: PValue, k: bytes): Option<bytes>
    decreases v, 0
  {
    match v
    case Unset => None
    case NotFinite => None
    case NullV => Some(NULL + k)
    case NumberV(t) => Some(t + k)
    case StringV(s) => Some(Quote(s) + k)
    case BoolV(b) => Some((if b then TRUE else FALSE) + k)
    case StructV(m) => Opened(LBRACE, WriteFields(v, StringKeys(m.Keys), 0, k))
    case ListV(vs) => Opened(LBRACKET, WriteElems(v, 0, k))
  }

  /** writeStruct from key `i` on, with the closing brace. */
  ghost function WriteFields(v: PValue, keys: seq<bytes>, i: nat, k: bytes): Option<bytes>
    requires v.StructV? && i <= |keys|
    decreases v, 0, |keys| - i
  {
    if i == |keys| then Some([RBRACE] + k)
    else if keys[i] !in v.fields then None
    else
      match WriteFields(v, keys, i + 1, k)
      case None => None
      case Some(more) =>
        match WriteTo(v.fields[keys[i]], more)
        case None => None
        case Some(s) => Some((if i > 0 then [COMMA] else []) + (Quote(keys[i]) + ([COLON] + s)))
  }

  /** writeListValue from element `i` on, with the closing bracket. */
  ghost function WriteElems(v: PValue, i: nat, k: bytes): Option<bytes>
    requires v.ListV? && i <= |v.vs|
    decreases v, 0, |v.vs| - i
  {
    if i == |v.vs| then Some([RBRACKET] + k)
    else
      match WriteElems(v, i + 1, k)
      case None => None
      case Some(more) =>
        match WriteTo(v.vs[i], more)
        case None => None
        case Some(s) => Some((if i > 0 then [COMMA] else []) + s)
  }

  // ---------------------------------------------------------------- parsing

  /** unmarshalValue. */
  function ReadValue(s: bytes, depth: nat): (r: Read<PValue>)
    ensures r.Ok? ==> |r.rest| < |s|
    decreases |s|, 0
  {
    var t := SkipWs(s);
    if t == [] then Err
    else if t[0] == NULL[0] then
      match ReadNull(t)
      case None => Err
      case Some(rest) => Ok(NullV, rest)
    else if t[0] == TRUE[0] || t[0] == FALSE[0] then
      var (b, rest) :- ReadBool(t);
      Ok(BoolV(b), rest)
    else if t[0] == QUOTE then
      var (v, rest) :- ReadString(t);
      Ok(StringV(v), rest)
    else if t[0] == LBRACE then
      match Begin(t, LBRACE, depth)
      case None => Err
      case Some(u) => ReadFields(u, true, depth + 1, map[])
    else if t[0] == LBRACKET then
      match Begin(t, LBRACKET, depth)
      case None => Err
      case Some(u) => ReadElems(u, true, depth + 1, [])
    else
      var (token, rest) :- ReadNumberToken(t);
      Ok(NumberV(token), rest)
  }

  /** unmarshalStruct behind the brace: a repeated key replaces the earlier value. */
  function ReadFields(s: bytes, first: bool, depth: nat, m: map<bytes, PValue>): (r: Read<PValue>)
    ensures r.Ok? ==> |r.rest| < |s|
    decreases |s|, 1
  {
    match NextKey(s, first)
    case NoKey => Err
    case EndObject(rest) => Ok(StructV(m), rest)
    case Key(key, u) =>
      match ReadValue(u, depth)
      case Err => Err
      case Ok(v, rest) => ReadFields(rest, false, depth, m[key := v])
  }

  /** unmarshalListValue behind the bracket. */
  function ReadElems(s: bytes, first: bool, depth: nat, vs: seq<PValue>): (r: Read<PValue>)
    ensures r.Ok? ==> |r.rest| < |s|
    decreases |s|, 1
  {
    match NextElem(s, first)
    case NoElem => Err
    case EndArray(rest) => Ok(ListV(vs), rest)
    case Element(u) =>
      match ReadValue(u, depth)
      case Err => Err
      case Ok(v, rest) => ReadElems(rest, false, depth, vs + [v])
  }

  // ---------------------------------------------------------------- nesting

  /** How many structs and lists are nested in each other. */
  ghost function Height(v: PValue): nat
    decreases v, 0
  {
    match v
    case StructV(m) => 1 + FieldsHeight(v, StringKeys(m.Keys), 0)
    case ListV(vs) => 1 + ElemsHeight(v, 0)
    case _ => 0
  }

  ghost function FieldsHeight(v: PValue, keys: seq<bytes>, i: nat): nat
    requires v.StructV? && i <= |keys|
    decreases v, 0, |keys| - i
  {
    if i == |keys| then 0
    else Max(if keys[i] in v.fields then Height(v.fields[keys[i]]) else 0, FieldsHeight(v, keys, i + 1))
  }

  ghost function ElemsHeight(v: PValue, i: nat): nat
    requires v.ListV? && i <= |v.vs|
    decreases v, 0, |v.vs| - i
  {
    if i == |v.vs| then 0 else Max(Height(v.vs[i]), ElemsHeight(v, i + 1))
  }

  lemma {:induction false} ElemsHeightBounds(v: PValue, i: nat, d: nat)
    requires v.ListV? && i <= |v.vs|
    ensures ElemsHeight(v, i) <= d <==> forall j :: i <= j < |v.vs| ==> Height(v.vs[j]) <= d
    decreases |v.vs| - i
  {
    hide Height;
    if i < |v.vs| {
      ElemsHeightBounds(v, i + 1, d);
    }
  }

  lemma {:induction false} FieldsHeightBounds(v: PValue, keys: seq<bytes>, i: nat, d: nat)
    requires v.StructV? && i <= |keys| && forall j :: 0 <= j < |keys| ==> keys[j] in v.fields
    ensures FieldsHeight(v, keys, i) <= d <==> forall j :: i <= j < |keys| ==> Height(v.fields[keys[j]]) <= d
    decreases |keys| - i
  {
    hide Height;
    if i < |keys| {
      FieldsHeightBounds(v, keys, i + 1, d);
    }
  }

  /** A value is within a height exactly when all that it holds is within one less. */
  lemma HeightExact(v: PValue, d: nat)
    ensures Height(v) <= d <==>
            match v
            case StructV(m) => d >= 1 && forall key :: key in m ==> Height(m[key]) <= d - 1
            case ListV(vs) => d >= 1 && forall j :: 0 <= j < |vs| ==> Height(vs[j]) <= d - 1
            case _ => true
  {
    if v.StructV? && d >= 1 {
      var keys := StringKeys(v.fields.Keys);
      assert forall key :: key in v.fields ==> key in Elements(keys);
      assert forall j :: 0 <= j < |keys| ==> keys[j] in Elements(keys);
      FieldsHeightBounds(v, keys, 0, d - 1);
    }
    if v.ListV? && d >= 1 {
      ElemsHeightBounds(v, 0, d - 1);
    }
  }

  // ---------------------------------------------------------------- failure of the printer

  lemma {:induction false} ElemsWrite(v: PValue, i: nat, k: bytes)
    requires v.ListV? && i <= |v.vs|
    ensures WriteElems(v, i, k).Some? <==> forall j :: i <= j < |v.vs| ==> Writes(v.vs[j])
    decreases v, 0, |v.vs| - i
  {
    if i < |v.vs| {
      ElemsWrite(v, i + 1, k);
      if WriteElems(v, i + 1, k).Some? {
        ValueWrites(v.vs[i], WriteElems(v, i + 1, k).value);
      }
    }
  }

  lemma {:induction false} FieldsWrite(v: PValue, keys: seq<bytes>, i: nat, k: bytes)
    requires v.StructV? && i <= |keys| && Elements(keys) == v.fields.Keys
    ensures WriteFields(v, keys, i, k).Some? <==> forall j :: i <= j < |keys| ==> Writes(v.fields[keys[j]])
    decreases v, 0, |keys| - i
  {
    if i < |keys| {
      assert keys[i] in Elements(keys);
      FieldsWrite(v, keys, i + 1, k);
      if WriteFields(v, keys, i + 1, k).Some? {
        ValueWrites(v.fields[keys[i]], WriteFields(v, keys, i + 1, k).value);
      }
    }
  }

  /** No kind is missing and no number is infinite or not a number. */
  ghost predicate Writes(v: PValue)
    decreases v
  {
    match v
    case Unset => false
    case NotFinite => false
    case StructV(m) => forall key :: key in m ==> Writes(m[key])
    case ListV(vs) => forall i :: 0 <= i < |vs| ==> Writes(vs[i])
    case _ => true
  }

  /** The printer fails exactly on values that hold one without a kind or a number that is not finite. */
  lemma {:induction false} ValueWrites(v: PValue, k: bytes)
    ensures WriteTo(v, k).Some? <==> Writes(v)
    decreases v, 1
  {
    hide *;
    match v
    case StructV(m) =>
      var keys := StringKeys(m.Keys);
      StructUnfolds(v, k);
      StructWrites(v, keys);
      FieldsWrite(v, keys, 0, k);
    case ListV(vs) =>
      ListUnfolds(v, k);
      ListWrites(v);
      ElemsWrite(v, 0, k);
    case _ => ScalarWrites(v, k);
  }

  lemma ScalarWrites(v: PValue, k: bytes)
    requires !v.StructV? && !v.ListV?
    ensures WriteTo(v, k).Some? <==> Writes(v)
  {
  }

  lemma StructUnfolds(v: PValue, k: bytes)
    requires v.StructV?
    ensures Elements(StringKeys(v.fields.Keys)) == v.fields.Keys
    ensures WriteTo(v, k).Some? <==> WriteFields(v, StringKeys(v.fields.Keys), 0, k).Some?
  {
    hide WriteFields;
  }

  lemma StructWrites(v: PValue, keys: seq<bytes>)
    requires v.StructV? && Elements(keys) == v.fields.Keys
    ensures forall j :: 0 <= j < |keys| ==> keys[j] in v.fields
    ensures Writes(v) <==> forall j :: 0 <= j < |keys| ==> Writes(v.fields[keys[j]])
  {
    assert forall key :: key in v.fields ==> key in Elements(keys);
    assert forall j :: 0 <= j < |keys| ==> keys[j] in Elements(keys);
  }

  lemma ListWrites(v: PValue)
    requires v.ListV?
    ensures Writes(v) <==> forall j :: 0 <= j < |v.vs| ==> Writes(v.vs[j])
  {
  }

  lemma {:induction false} PrintableWrites(v: PValue)
    requires Printable(v)
    ensures Writes(v)
    decreases v
  {
    match v
    case StructV(m) =>
      forall key | key in m ensures Writes(m[key]) {
        PrintableWrites(m[key]);
      }
    case ListV(vs) =>
      forall i | 0 <= i < |vs| ensures Writes(vs[i]) {
        PrintableWrites(vs[i]);
      }
    case _ =>
  }

  // ---------------------------------------------------------------- round trip

  lemma TokenReads(t: bytes, k: bytes)
    requires IsToken(t) && Ended(k)
    ensures ReadNumberToken(t + k) == Ok(t, k) && t != [] && (t[0] == MINUS || IsDigit(t[0]))
  {
    var n := Json.NumberSound(t);
    Json.NumToAppend(n, k);
    Json.NumberComplete(n, k);
    assert t != [] && (t[0] == MINUS || IsDigit(t[0]));
    SkipWsStop(t + k);
    assert (t + k)[..|t|] == t;
  }

  /** A printed value starts where it is read, with something that is neither a separator nor a closing bracket. */
  predicate Opens(s: bytes) {
    s != [] && !IsWs(s[0]) && s[0] != RBRACKET && s[0] != RBRACE && s[0] != COMMA
  }

  lemma WriteOpens(v: PValue, k: bytes)
    requires Printable(v) && WriteTo(v, k).Some? && Ended(k)
    ensures Opens(WriteTo(v, k).value)
  {
    if v.NumberV? {
      TokenReads(v.token, k);
    }
  }

  lemma ScalarReads(v: PValue, k: bytes, depth: nat)
    requires Printable(v) && !v.StructV? && !v.ListV? && Ended(k)
    ensures WriteTo(v, k).Some? && ReadValue(WriteTo(v, k).value, depth) == Ok(v, k)
  {
    var s := WriteTo(v, k).value;
    WriteOpens(v, k);
    SkipWsStop(s);
    hide NumberEnd;
    match v
    case NullV => StartsWithAppend(NULL, k);
    case BoolV(b) => RoundTrip.BoolReads(b, k);
    case StringV(t) => QuoteReadsBack(t, k);
    case NumberV(t) => TokenReads(t, k);
  }

  lemma ElemNext(s: bytes, first: bool)
    requires Opens(s)
    ensures NextElem((if first then [] else [COMMA]) + s, first) == Element(s)
  {
    SkipWsStop(s);
    if first {
      assert [] + s == s;
    } else {
      SkipWsStop([COMMA] + s);
      assert ([COMMA] + s)[1..] == s;
    }
  }

  lemma CloseNext(k: bytes, first: bool)
    ensures NextElem([RBRACKET] + k, first) == EndArray(k) && NextKey([RBRACE] + k, first) == EndObject(k)
  {
    SkipWsStop([RBRACKET] + k);
    SkipWsStop([RBRACE] + k);
    assert ([RBRACKET] + k)[1..] == k && ([RBRACE] + k)[1..] == k;
  }

  lemma {:induction false} ElemsRead(v: PValue, i: nat, k: bytes, depth: nat)
    requires v.ListV? && Printable(v) && i <= |v.vs| && depth <= MAX_DEPTH
    ensures WriteElems(v, i, k).Some?
    ensures Ended(WriteElems(v, i, k).value) || i == 0
    ensures ReadElems(WriteElems(v, i, k).value, i == 0, depth, v.vs[..i]) == IfFits(depth + ElemsHeight(v, i) <= MAX_DEPTH, v, k)
    decreases v, 0, |v.vs| - i
  {
    hide *;
    ElemsUnfold(v, i, k);
    if i == |v.vs| {
      ListEnds(k, i == 0, depth, v.vs[..i]);
      assert v.vs[..i] == v.vs;
    } else {
      ElemsRead(v, i + 1, k, depth);
      var more := WriteElems(v, i + 1, k).value;
      ElemPrintable(v, i);
      ValueReads(v.vs[i], more, depth);
      WriteOpens(v.vs[i], more);
      var s := WriteTo(v.vs[i], more).value;
      OpensEnds(i == 0, s);
      ElemNext(s, i == 0);
      ElemTurn((if i == 0 then [] else [COMMA]) + s, i == 0, depth, v.vs[..i], s);
      assert v.vs[..i + 1] == v.vs[..i] + [v.vs[i]];
      FitsBoth(depth, Height(v.vs[i]), ElemsHeight(v, i + 1), v.vs[i], more, v, k);
    }
  }

  lemma ElemPrintable(v: PValue, i: nat)
    requires v.ListV? && Printable(v) && i < |v.vs|
    ensures Printable(v.vs[i])
  {
  }

  lemma ElemsUnfold(v: PValue, i: nat, k: bytes)
    requires v.ListV? && i <= |v.vs|
    ensures i == |v.vs| ==> WriteElems(v, i, k) == Some([RBRACKET] + k) && ElemsHeight(v, i) == 0
    ensures i < |v.vs| ==> ElemsHeight(v, i) == Max(Height(v.vs[i]), ElemsHeight(v, i + 1))
    ensures i < |v.vs| && WriteElems(v, i + 1, k).Some? && WriteTo(v.vs[i], WriteElems(v, i + 1, k).value).Some? ==>
              WriteElems(v, i, k) == Some((if i == 0 then [] else [COMMA]) + WriteTo(v.vs[i], WriteElems(v, i + 1, k).value).value)
    ensures i > 0 && WriteElems(v, i, k).Some? ==> Ended(WriteElems(v, i, k).value)
  {
    hide WriteTo, Height;
  }

  lemma OpensEnds(first: bool, s: bytes)
    ensures !first ==> Ended([COMMA] + s)
  {
  }

  lemma ListEnds(k: bytes, first: bool, depth: nat, vs: seq<PValue>)
    ensures ReadElems([RBRACKET] + k, first, depth, vs) == Ok(ListV(vs), k)
    ensures Ended([RBRACKET] + k)
    ensures depth <= MAX_DEPTH ==> IfFits(depth + 0 <= MAX_DEPTH, ListV(vs), k) == Ok(ListV(vs), k)
  {
    CloseNext(k, first);
    hide NextElem;
  }

  lemma ElemTurn(s: bytes, first: bool, depth: nat, vs: seq<PValue>, u: bytes)
    requires NextElem(s, first) == Element(u)
    ensures ReadElems(s, first, depth, vs) ==
            var r := ReadValue(u, depth); if r.Err? then Err else ReadElems(r.rest, false, depth, vs + [r.value])
  {
    hide NextElem, ReadValue;
  }

  /** Both a value and what stands behind it nest within the limit. */
  lemma FitsBoth(depth: nat, a: nat, b: nat, x: PValue, more: bytes, v: PValue, k: bytes)
    ensures var r := IfFits(depth + a <= MAX_DEPTH, x, more);
            && (r.Ok? <==> depth + a <= MAX_DEPTH) && (r.Ok? ==> r.value == x && r.rest == more)
    ensures IfFits(depth + Max(a, b) <= MAX_DEPTH, v, k) ==
            if depth + a <= MAX_DEPTH then IfFits(depth + b <= MAX_DEPTH, v, k) else Err
  {
  }

  lemma FieldTurn(s: bytes, first: bool, depth: nat, m: map<bytes, PValue>, key: bytes, u: bytes)
    requires NextKey(s, first) == Key(key, u)
    ensures ReadFields(s, first, depth, m) ==
            match ReadValue(u, depth)
            case Err => Err
            case Ok(v, rest) => ReadFields(rest, false, depth, m[key := v])
  {
    hide NextKey, ReadValue;
  }

  lemma FieldIn(v: PValue, keys: seq<bytes>, i: nat)
    requires v.StructV? && Printable(v) && i < |keys| && Elements(keys) == v.fields.Keys
    ensures keys[i] in v.fields && Printable(v.fields[keys[i]])
  {
    assert keys[i] in Elements(keys);
  }

  lemma {:induction false} FieldsRead(v: PValue, keys: seq<bytes>, i: nat, k: bytes, depth: nat)
    requires v.StructV? && Printable(v) && i <= |keys| && depth <= MAX_DEPTH && Elements(keys) == v.fields.Keys
    ensures WriteFields(v, keys, i, k).Some?
    ensures Ended(WriteFields(v, keys, i, k).value) || i == 0
    ensures ReadFields(WriteFields(v, keys, i, k).value, i == 0, depth, Upto(keys, i, v.fields)) ==
            IfFits(depth + FieldsHeight(v, keys, i) <= MAX_DEPTH, v, k)
    decreases v, 0, |keys| - i
  {
    hide NextKey, ReadValue, WriteTo, Height, Printable, Quote, Upto, Elements;
    if i == |keys| {
      CloseNext(k, i == 0);
      UptoAll(keys, v.fields);
    } else {
      FieldIn(v, keys, i);
      FieldsRead(v, keys, i + 1, k, depth);
      var more := WriteFields(v, keys, i + 1, k).value;
      ValueReads(v.fields[keys[i]], more, depth);
      hide ReadFields;
      var u := WriteTo(v.fields[keys[i]], more).value;
      RoundTrip.KeyReads(i == 0, keys[i], u);
      UptoNext(keys, i, v.fields);
      FieldTurn(WriteFields(v, keys, i, k).value, i == 0, depth, Upto(keys, i, v.fields), keys[i], u);
    }
  }

  /**
   Value trees print and parse back: whatever is printed is read back whole, to its end and no
   further, if and only if the nesting stays within the limit.
   */
  lemma {:induction false} ValueReads(v: PValue, k: bytes, depth: nat)
    requires Printable(v) && Ended(k) && depth <= MAX_DEPTH
    ensures WriteTo(v, k).Some?
    ensures ReadValue(WriteTo(v, k).value, depth) == IfFits(depth + Height(v) <= MAX_DEPTH, v, k)
    decreases v, 1
  {
    match v
    case StructV(m) => StructReads(v, k, depth);
    case ListV(vs) => ListReads(v, k, depth);
    case _ => ScalarReads(v, k, depth);
  }

  lemma OpenReads(open: byte, body: bytes, depth: nat)
    requires open == LBRACE || open == LBRACKET
    ensures var s := [open] + body;
            ReadValue(s, depth) ==
            if depth + 1 > MAX_DEPTH then Err
            else if open == LBRACE then ReadFields(body, true, depth + 1, map[])
            else ReadElems(body, true, depth + 1, [])
  {
    var s := [open] + body;
    SkipWsStop(s);
    assert s[1..] == body;
    hide ReadFields, ReadElems;
  }

  lemma {:induction false} StructReads(v: PValue, k: bytes, depth: nat)
    requires v.StructV? && Printable(v) && Ended(k) && depth <= MAX_DEPTH
    ensures WriteTo(v, k).Some?
    ensures ReadValue(WriteTo(v, k).value, depth) == IfFits(depth + Height(v) <= MAX_DEPTH, v, k)
    decreases v, 0, |StringKeys(v.fields.Keys)| + 1
  {
    hide ReadFields, WriteFields, FieldsHeight, Printable, Writes, Upto, Ascending, Elements;
    var keys := StringKeys(v.fields.Keys);
    if depth + 1 <= MAX_DEPTH {
      FieldsRead(v, keys, 0, k, depth + 1);
    }
    PrintableWrites(v);
    ValueWrites(v, k);
    UptoNone(keys, v.fields);
    var body := WriteFields(v, keys, 0, k).value;
    OpenReads(LBRACE, body, depth);
  }

  lemma {:induction false} ListReads(v: PValue, k: bytes, depth: nat)
    requires v.ListV? && Printable(v) && Ended(k) && depth <= MAX_DEPTH
    ensures WriteTo(v, k).Some?
    ensures ReadValue(WriteTo(v, k).value, depth) == IfFits(depth + Height(v) <= MAX_DEPTH, v, k)
    decreases v, 0, |v.vs| + 1
  {
    hide *;
    PrintableWrites(v);
    ValueWrites(v, k);
    ListUnfolds(v, k);
    assert v.vs[..0] == [];
    var body := WriteElems(v, 0, k).value;
    if depth + 1 <= MAX_DEPTH {
      ElemsRead(v, 0, k, depth + 1);
    }
    ListFits(v, depth, k);
    OpenReads(LBRACKET, body, depth);
  }

  lemma ListUnfolds(v: PValue, k: bytes)
    requires v.ListV?
    ensures WriteTo(v, k).Some? <==> WriteElems(v, 0, k).Some?
    ensures WriteTo(v, k).Some? ==> WriteElems(v, 0, k).Some? && WriteTo(v, k).value == [LBRACKET] + WriteElems(v, 0, k).value
    ensures Height(v) == 1 + ElemsHeight(v, 0)
  {
    hide WriteElems, ElemsHeight;
  }

  lemma ListFits(v: PValue, depth: nat, k: bytes)
    requires v.ListV? && Height(v) == 1 + ElemsHeight(v, 0)
    ensures IfFits(depth + Height(v) <= MAX_DEPTH, v, k) ==
            if depth + 1 <= MAX_DEPTH then IfFits(depth + 1 + ElemsHeight(v, 0) <= MAX_DEPTH, v, k) else Err
    ensures LBRACE != LBRACKET
  {
    hide Height, ElemsHeight;
  }
}
