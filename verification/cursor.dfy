/**
 The structural steps of the decoders: opening an object or an array, the next key, the next
 element, literals, and skipping a whole value. `depth` is the nesting before the step.
 */
module Cursor {
  import opened Bytes
  import opened Text
  import opened Numbers

  /** BeginObject and BeginArray: the unread rest behind the opening bracket. */
  function Begin(s: bytes, open: byte, depth: nat): (r: Option<bytes>)
    ensures r.Some? ==> |r.value| < |s| && depth < MAX_DEPTH
  {
    var t := SkipWs(s);
    if At(t, open) && depth + 1 <= MAX_DEPTH then Some(t[1..]) else None
  }

  /** Outcome of looking for the next key of an object. */
  datatype Key = NoKey | EndObject(rest: bytes) | Key(name: bytes, rest: bytes)

  /** The separator in front of a key or an element, which is missing only before the first one. */
  function Separator(s: bytes, first: bool): (r: Option<bytes>)
    ensures r.Some? ==> |r.value| <= |s|
    ensures r.Some? && !first ==> |r.value| < |s|
  {
    if first then Some(s)
    else if !At(s, COMMA) then None
    else Some(SkipWs(s[1..]))
  }

  /** The colon behind a key. */
  function AfterColon(key: Read<bytes>): (r: Key)
    ensures !r.EndObject?
    ensures r.Key? ==> key.Ok? && r.name == key.value && |r.rest| < |key.rest|
  {
    match key
    case Err => NoKey
    case Ok(name, k) =>
      var t := SkipWs(k);
      if At(t, COLON) then Key(name, t[1..]) else NoKey
  }

  /** NextObjectKey, reading keys with readObjectKeyFast. */
  function NextKey(s: bytes, first: bool): (r: Key)
    ensures r.EndObject? ==> |r.rest| < |s|
    ensures r.Key? ==> |r.rest| < |s|
  {
    var t := SkipWs(s);
    if t == [] then NoKey
    else if t[0] == RBRACE then EndObject(t[1..])
    else
      match Separator(t, first)
      case None => NoKey
      case Some(u) => AfterColon(ReadKeyFast(u))
  }

  /** The key step written out in decBuffer.skipValue, which reads keys with readStringBytes. */
  function NextKeyPlain(s: bytes, first: bool): Key {
    var t := SkipWs(s);
    if t == [] then NoKey
    else if t[0] == RBRACE then EndObject(t[1..])
    else
      match Separator(t, first)
      case None => NoKey
      case Some(u) => AfterColon(ReadString(u))
  }

  lemma NextKeyAgree(s: bytes, first: bool)
    ensures NextKey(s, first) == NextKeyPlain(s, first)
  {
    var t := SkipWs(s);
    if t != [] && t[0] != RBRACE && Separator(t, first).Some? {
      KeyFastIsReadString(Separator(t, first).value);
    }
  }

  /** Outcome of looking for the next element of an array. */
  datatype Elem = NoElem | EndArray(rest: bytes) | Element(rest: bytes)

  /** NextArrayElement. */
  function NextElem(s: bytes, first: bool): (r: Elem)
    ensures r.EndArray? ==> |r.rest| < |s|
    ensures r.Element? ==> |r.rest| <= |s| && (!first ==> |r.rest| < |s|)
  {
    var t := SkipWs(s);
    if t == [] then NoElem
    else if t[0] == RBRACKET then EndArray(t[1..])
    else
      match Separator(t, first)
      case None => NoElem
      case Some(u) => Element(u)
  }

  /** ReadNull: the rest behind the literal, when white space and the literal come next. */
  function ReadNull(s: bytes): (r: Option<bytes>)
    ensures r.Some? ==> |r.value| < |s|
  {
    var t := SkipWs(s);
    if StartsWith(t, NULL) then Some(t[4..]) else None
  }

  /** ReadBool. */
  function ReadBool(s: bytes): (r: Read<bool>)
    ensures r.Ok? ==> |r.rest| < |s|
  {
    var t := SkipWs(s);
    if StartsWith(t, TRUE) then Ok(true, t[4..])
    else if StartsWith(t, FALSE) then Ok(false, t[5..])
    else Err
  }

  // ---------------------------------------------------------------- skipping a value

  /** The bytes up to the next terminator. */
  function TakeToken(s: bytes): (r: bytes)
    ensures |r| <= |s| && s[..|r|] == r && Ended(s[|r|..])
    ensures forall i :: 0 <= i < |r| ==> !IsTerminator(r[i])
  {
    if s == [] || IsTerminator(s[0]) then []
    else
      var r := TakeToken(s[1..]);
      assert s == [s[0]] + s[1..];
      [s[0]] + r
  }

  /** json.Valid on a run of bytes without terminators that starts no string, object or array. */
  predicate IsScalar(c: bytes) {
    c == TRUE || c == FALSE || c == NULL || NumberEnd(c) == Some([])
  }

  function SkipScalar(s: bytes): (r: Option<bytes>)
    ensures r.Some? ==> |r.value| < |s|
  {
    var c := TakeToken(s);
    if c != [] && IsScalar(c) then Some(s[|c|..]) else None
  }

  /** Decoder.SkipValue: the bytes behind one complete value. */
  function SkipValue(s: bytes, depth: nat): (r: Option<bytes>)
    ensures r.Some? ==> |r.value| < |s|
    decreases |s|, 0
  {
    var t := SkipWs(s);
    if t == [] then None
    else if t[0] == LBRACE then
      match Begin(s, LBRACE, depth)
      case None => None
      case Some(u) => SkipMembers(u, true, depth + 1)
    else if t[0] == LBRACKET then
      match Begin(s, LBRACKET, depth)
      case None => None
      case Some(u) => SkipElems(u, true, depth + 1)
    else if t[0] == QUOTE then
      match ReadString(s)
      case Err => None
      case Ok(_, rest) => Some(rest)
    else SkipScalar(t)
  }

  function SkipMembers(s: bytes, first: bool, depth: nat): (r: Option<bytes>)
    ensures r.Some? ==> |r.value| < |s|
    decreases |s|, 1
  {
    match NextKey(s, first)
    case NoKey => None
    case EndObject(rest) => Some(rest)
    case Key(_, u) =>
      match SkipValue(u, depth)
      case None => None
      case Some(v) => SkipMembers(v, false, depth)
  }

  function SkipElems(s: bytes, first: bool, depth: nat): (r: Option<bytes>)
    ensures r.Some? ==> |r.value| < |s|
    decreases |s|, 1
  {
    match NextElem(s, first)
    case NoElem => None
    case EndArray(rest) => Some(rest)
    case Element(u) =>
      match SkipValue(u, depth)
      case None => None
      case Some(v) => SkipElems(v, false, depth)
  }
}
