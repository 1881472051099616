/**
 The generated message decoders, over any schema: the ordered one (unmarshalProtoJSONXFast), which
 may give up, the one for any order (unmarshalProtoJSONXFrom), and the entry point that chooses.
 */
module Generated {
  import opened Bytes
  import opened Text
  import opened Numbers
  import opened Cursor
  import opened Schema

  /** What a decode depends on besides the input. */
  datatype Env = Env(schema: Schema, discard: bool, floats: Floats)

  /** A decoded element. `Unknown` is an enum name that is not known and that discarding lets pass. */
  datatype Item = Known(v: Value) | Unknown

  /** The decoded text behind a key. */
  datatype Payload =
    | Null
    | Single(item: Item)
    | List(vs: seq<Value>)
    | Map(m: map<bytes, bytes>)

  // ---------------------------------------------------------------- values

  function KnownNum(r: Read<int>): (r': Read<Item>)
    ensures r'.Ok? ==> r.Ok? && r'.rest == r.rest
  {
    match r case Err => Err case Ok(n, rest) => Ok(Known(Num(n)), rest)
  }

  function ReadEnum(env: Env, values: seq<EnumValue>, s: bytes): (r: Read<Item>)
    ensures r.Ok? ==> |r.rest| < |s|
    ensures r.Ok? && r.value.Unknown? ==> env.discard
  {
    if At(SkipWs(s), QUOTE) then
      var (name, rest) :- ReadString(s);
      match FindName(values, name)
      case Some(n) => Ok(Known(Num(n)), rest)
      case None => if env.discard then Ok(Unknown, rest) else Err
    else KnownNum(ReadInt32(env.floats, s))
  }

  function ReadScalar(env: Env, k: Kind, s: bytes): (r: Read<Item>)
    requires !k.MessageKind?
    ensures r.Ok? ==> |r.rest| < |s|
    ensures r.Ok? && r.value.Unknown? ==> env.discard && k.EnumKind?
  {
    match k
    case StringKind => var (v, rest) :- ReadString(s); Ok(Known(Str(v)), rest)
    case BoolKind => var (v, rest) :- ReadBool(s); Ok(Known(Bool(v)), rest)
    case Int32Kind => KnownNum(ReadInt32(env.floats, s))
    case Int64Kind => KnownNum(ReadInt64(env.floats, s))
    case Uint32Kind => KnownNum(ReadUint32(env.floats, s))
    case Uint64Kind => KnownNum(ReadUint64(env.floats, s))
    case EnumKind(values) => ReadEnum(env, values, s)
  }

  /** The loop over a string-to-string map, which refuses repeated keys. */
  function ReadPairs(s: bytes, first: bool, m: map<bytes, bytes>): (r: Read<map<bytes, bytes>>)
    ensures r.Ok? ==> |r.rest| < |s|
    decreases |s|
  {
    match NextKey(s, first)
    case NoKey => Err
    case EndObject(rest) => Ok(m, rest)
    case Key(k, u) =>
      match ReadString(u)
      case Err => Err
      case Ok(v, rest) => if k in m then Err else ReadPairs(rest, false, m[k := v])
  }

  /** `fast` tells whether nested messages are tried in order first. */
  function ReadItem(env: Env, fast: bool, k: Kind, s: bytes, depth: nat): (r: Read<Item>)
    ensures r.Ok? ==> |r.rest| < |s|
    ensures r.Ok? && r.value.Unknown? ==> env.discard && k.EnumKind?
    decreases |s|, 3, 0
  {
    match k
    case MessageKind(t) => var (m, rest) :- ReadMessage(env, fast, t, s, depth); Ok(Known(Sub(m)), rest)
    case _ => ReadScalar(env, k, s)
  }

  /** The loop over the elements of a repeated field. Null messages are refused, unknown enum names dropped. */
  function ReadList(env: Env, fast: bool, k: Kind, s: bytes, first: bool, depth: nat): (r: Read<seq<Value>>)
    ensures r.Ok? ==> |r.rest| < |s|
    decreases |s|, 5, 0
  {
    match NextElem(s, first)
    case NoElem => Err
    case EndArray(rest) => Ok([], rest)
    case Element(u) =>
      if k.MessageKind? && ReadNull(u).Some? then Err
      else
        match ReadItem(env, fast, k, u, depth)
        case Err => Err
        case Ok(item, v) =>
          var (vs, rest) :- ReadList(env, fast, k, v, false, depth);
          Ok(if item.Known? then [item.v] + vs else vs, rest)
  }

  function ReadPayload(env: Env, fast: bool, f: Field, s: bytes, depth: nat): (r: Read<Payload>)
    ensures r.Ok? ==> |r.rest| < |s|
    ensures r.Ok? && r.value.Single? && r.value.item.Unknown? ==> env.discard && f.kind.EnumKind?
    decreases |s|, 4, 0
  {
    match ReadNull(s)
    case Some(rest) => Ok(Null, rest)
    case None =>
      match f.card
      case StringMap =>
        (match Begin(s, LBRACE, depth)
         case None => Err
         case Some(u) => var (m, rest) :- ReadPairs(u, true, map[]); Ok(Map(m), rest))
      case Repeated =>
        (match Begin(s, LBRACKET, depth)
         case None => Err
         case Some(u) => var (vs, rest) :- ReadList(env, fast, f.kind, u, true, depth + 1); Ok(List(vs), rest))
      case _ => var (item, rest) :- ReadItem(env, fast, f.kind, s, depth); Ok(Single(item), rest)
  }

  // ---------------------------------------------------------------- storing

  /** The value to store for an element: an unknown enum name leaves the zero value. */
  function Stored(item: Item): Value {
    match item case Known(v) => v case Unknown => Num(0)
  }

  /** The content of a field outside oneofs after `p` has been decoded for it. */
  function SlotOf(f: Field, p: Payload): Slot {
    match p
    case Null => ZeroSlot(f)
    case Single(item) => if f.card.Implicit? && !f.kind.MessageKind? then One(Stored(item)) else Pointer(Some(Stored(item)))
    case List(vs) => Many(vs)
    case Map(m) => Pairs(m)
  }

  /** Store what was decoded for field `i`; fails when its oneof has been populated already. */
  function Store(mt: MessageType, i: nat, p: Payload, m: Message, seenOneofs: set<nat>): (r: Option<(Message, set<nat>)>)
    requires Shaped(mt, m) && i < |mt.fields|
    ensures r.Some? ==> Shaped(mt, r.value.0)
  {
    match mt.fields[i].card
    case Member(o) =>
      if p.Null? then
        if o in m.oneofs && m.oneofs[o].field == i then Some((m.(oneofs := m.oneofs - {o}), seenOneofs))
        else Some((m, seenOneofs))
      else if o in seenOneofs then None
      else if p.Single? then Some((m.(oneofs := m.oneofs[o := Choice(i, Stored(p.item))]), seenOneofs + {o}))
      else None
    case _ => Some((m.(slots := m.slots[i := SlotOf(mt.fields[i], p)]), seenOneofs))
  }

  // ---------------------------------------------------------------- any order

  /** unmarshalProtoJSONXFrom into a fresh message. */
  function SlowMessage(env: Env, t: nat, s: bytes, depth: nat): (r: Read<Message>)
    ensures r.Ok? ==> |r.rest| < |s| && Shaped(env.schema(t), r.value)
    decreases |s|, 1, 0
  {
    match Begin(s, LBRACE, depth)
    case None => Err
    case Some(u) => SlowLoop(env, t, u, true, {}, {}, Fresh(env.schema(t)), depth + 1)
  }

  function SlowLoop(env: Env, t: nat, s: bytes, first: bool, seen: set<nat>, seenOneofs: set<nat>, m: Message, depth: nat): (r: Read<Message>)
    requires Shaped(env.schema(t), m)
    ensures r.Ok? ==> |r.rest| < |s| && Shaped(env.schema(t), r.value)
    decreases |s|, 0, 0
  {
    match NextKey(s, first)
    case NoKey => Err
    case EndObject(rest) => Ok(m, rest)
    case Key(key, u) =>
      match Find(env.schema(t), key)
      case None =>
        if !env.discard then Err
        else
          (match SkipValue(u, depth)
           case None => Err
           case Some(v) => SlowLoop(env, t, v, false, seen, seenOneofs, m, depth))
      case Some(i) =>
        if i in seen then Err
        else
          match ReadPayload(env, false, env.schema(t).fields[i], u, depth)
          case Err => Err
          case Ok(p, v) =>
            match Store(env.schema(t), i, p, m, seenOneofs)
            case None => Err
            case Some((m', o')) => SlowLoop(env, t, v, false, seen + {i}, o', m', depth)
  }

  // ---------------------------------------------------------------- in order

  /** Outcome of MatchFast: an error, the end of the object, or whether the next key is the one asked for. */
  datatype Match = MatchErr | MatchEnd(rest: bytes) | NoMatch(rest: bytes) | Matched(rest: bytes)

  /** The rest behind `name` and its closing quote. */
  predicate RawName(s: bytes, name: bytes) {
    StartsWith(s, name) && |s| > |name| && s[|name|] == QUOTE
  }

  /** TryObjectFieldFast and MatchFast. */
  function MatchFast(s: bytes, first: bool, name: bytes): (r: Match)
    ensures r.MatchEnd? ==> |r.rest| < |s|
    ensures r.NoMatch? ==> |r.rest| <= |s|
    ensures r.Matched? ==> |r.rest| < |s|
  {
    var t := SkipWs(s);
    if t == [] then MatchErr
    else if t[0] == RBRACE then MatchEnd(t[1..])
    else
      match Separator(t, first)
      case None => MatchErr
      case Some(u) =>
        if !At(u, QUOTE) || !RawName(u[1..], name) then NoMatch(t)
        else
          var c := SkipWs(u[1..][|name| + 1..]);
          if At(c, COLON) then Matched(c[1..]) else MatchErr
  }

  /** Outcome of the ordered decoder. */
  datatype FastResult = FastErr | GiveUp | FastDone(value: Message, rest: bytes)

  /** unmarshalProtoJSONXFast into a fresh message. */
  function FastMessage(env: Env, t: nat, s: bytes, depth: nat): (r: FastResult)
    ensures r.FastDone? ==> |r.rest| < |s| && Shaped(env.schema(t), r.value)
    decreases |s|, 1, 0
  {
    match Begin(s, LBRACE, depth)
    case None => FastErr
    case Some(u) => FastFields(env, t, 0, u, true, {}, Fresh(env.schema(t)), depth + 1)
  }

  /** The blocks of the ordered decoder from field `i` on, then TryEndObject. */
  function FastFields(env: Env, t: nat, i: nat, s: bytes, first: bool, seenOneofs: set<nat>, m: Message, depth: nat): (r: FastResult)
    requires i <= |env.schema(t).fields| && Shaped(env.schema(t), m)
    ensures r.FastDone? ==> |r.rest| < |s| && Shaped(env.schema(t), r.value)
    decreases |s|, 0, |env.schema(t).fields| - i
  {
    if i == |env.schema(t).fields| then
      var u := SkipWs(s);
      if u == [] then FastErr else if u[0] == RBRACE then FastDone(m, u[1..]) else GiveUp
    else
      match MatchFast(s, first, env.schema(t).fields[i].json)
      case MatchErr => FastErr
      case MatchEnd(rest) => FastDone(m, rest)
      case NoMatch(u) => FastFields(env, t, i + 1, u, first, seenOneofs, m, depth)
      case Matched(u) =>
        match ReadPayload(env, true, env.schema(t).fields[i], u, depth)
        case Err => FastErr
        case Ok(p, v) =>
          match Store(env.schema(t), i, p, m, seenOneofs)
          case None => FastErr
          case Some((m', o')) => FastFields(env, t, i + 1, v, false, o', m', depth)
  }

  /** A nested message: in order first and from the start again when that gives up, or in any order. */
  function ReadMessage(env: Env, fast: bool, t: nat, s: bytes, depth: nat): (r: Read<Message>)
    ensures r.Ok? ==> |r.rest| < |s| && Shaped(env.schema(t), r.value)
    decreases |s|, 2, 0
  {
    if fast then
      match FastMessage(env, t, s, depth)
      case FastErr => Err
      case FastDone(m, rest) => Ok(m, rest)
      case GiveUp => SlowMessage(env, t, s, depth)
    else SlowMessage(env, t, s, depth)
  }

  // ---------------------------------------------------------------- entry point

  /** Outcome of PeekObjectFieldName: an error or the first key, which is empty for an empty object. */
  function Peek(s: bytes, depth: nat): Option<bytes> {
    match Begin(s, LBRACE, depth)
    case None => None
    case Some(u) =>
      var t := SkipWs(u);
      if t == [] then None
      else if t[0] == RBRACE then Some([])
      else
        match AfterColon(ReadKeyFast(t))
        case Key(name, _) => Some(name)
        case _ => None
  }

  /** Finish: nothing but white space may follow the message. */
  function Finish(r: Read<Message>): Option<Message> {
    match r
    case Err => None
    case Ok(m, rest) => if SkipWs(rest) == [] then Some(m) else None
  }

  /** The attempts of the entry point once it is decided whether to try the ordered decoder. */
  function Attempts(env: Env, t: nat, data: bytes, tryFast: bool): Option<Message> {
    if tryFast then
      match FastMessage(env, t, data, 0)
      case FastErr => None
      case FastDone(m, rest) => Finish(Ok(m, rest))
      case GiveUp => Finish(SlowMessage(env, t, data, 0))
    else Finish(SlowMessage(env, t, data, 0))
  }

  /** UnmarshalProtoJSONXWithOptions. */
  function Unmarshal(env: Env, t: nat, data: bytes): Option<Message> {
    var fields := env.schema(t).fields;
    if fields == [] then Attempts(env, t, data, true)
    else
      match Peek(data, 0)
      case None => None
      case Some(key) => Attempts(env, t, data, key == fields[0].json || key == [])
  }
}
