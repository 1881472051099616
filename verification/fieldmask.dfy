/**
 google.protobuf.FieldMask: the conversions between snake_case and camelCase names, and the list of
 paths as one JSON string.
 */
module FieldMasks {
  import opened Bytes
  import opened Text

  predicate IsLower(c: byte) {
    97 <= c <= 122
  }

  predicate IsUpper(c: byte) {
    65 <= c <= 90
  }

  /** jsonCamelCase; `was` tells whether an underscore has just been dropped. */
  function CamelFrom(s: bytes, was: bool): bytes {
    if s == [] then []
    else if s[0] == UNDERSCORE then CamelFrom(s[1..], true)
    else [if was && IsLower(s[0]) then s[0] - 32 else s[0]] + CamelFrom(s[1..], false)
  }

  function Camel(s: bytes): bytes {
    CamelFrom(s, false)
  }

  /** jsonSnakeCase. */
  function Snake(s: bytes): bytes {
    if s == [] then []
    else if IsUpper(s[0]) then [UNDERSCORE, s[0] + 32] + Snake(s[1..])
    else [s[0]] + Snake(s[1..])
  }

  // ---------------------------------------------------------------- when the conversions are inverse

  /** No capitals, and a lowercase letter behind every underscore. */
  predicate Reversible(s: bytes) {
    && (forall i :: 0 <= i < |s| ==> !IsUpper(s[i]))
    && (forall i :: 0 <= i < |s| && s[i] == UNDERSCORE ==> i + 1 < |s| && IsLower(s[i + 1]))
  }

  lemma {:induction false} CamelPlain(s: bytes, was: bool)
    ensures UNDERSCORE !in CamelFrom(s, was)
  {
    if s != [] {
      CamelPlain(s[1..], s[0] == UNDERSCORE);
    }
  }

  lemma {:induction false} SnakeReversible(s: bytes)
    requires UNDERSCORE !in s
    ensures Reversible(Snake(s))
  {
    if s != [] {
      var t := Snake(s[1..]);
      SnakeReversible(s[1..]);
      var r := Snake(s);
      var n := |r| - |t|;
      assert forall i :: n <= i < |r| ==> r[i] == t[i - n];
    }
  }

  lemma {:induction false} SnakeOfCamel(s: bytes)
    requires Reversible(s)
    ensures Snake(Camel(s)) == s
    decreases |s|
  {
    if s != [] {
      if s[0] == UNDERSCORE {
        var t := s[1..];
        assert Reversible(t[1..]);
        SnakeOfCamel(t[1..]);
        assert CamelFrom(t, true) == [t[0] - 32] + Camel(t[1..]);
        assert ([t[0] - 32] + Camel(t[1..]))[1..] == Camel(t[1..]);
        assert s == [UNDERSCORE, t[0]] + t[1..];
      } else {
        assert Reversible(s[1..]);
        SnakeOfCamel(s[1..]);
        assert ([s[0]] + Camel(s[1..]))[1..] == Camel(s[1..]);
        assert s == [s[0]] + s[1..];
      }
    }
  }

  /** jsonSnakeCase inverts jsonCamelCase exactly on the reversible names. */
  lemma SnakeInvertsCamel(s: bytes)
    ensures Snake(Camel(s)) == s <==> Reversible(s)
  {
    if Reversible(s) {
      SnakeOfCamel(s);
    }
    CamelPlain(s, false);
    SnakeReversible(Camel(s));
  }

  lemma {:induction false} CamelOfSnake(s: bytes)
    requires UNDERSCORE !in s
    ensures Camel(Snake(s)) == s
  {
    if s != [] {
      CamelOfSnake(s[1..]);
      var t := Snake(s[1..]);
      assert s == [s[0]] + s[1..];
      if IsUpper(s[0]) {
        var u := [s[0] + 32] + t;
        assert ([UNDERSCORE, s[0] + 32] + t)[1..] == u;
        assert u[1..] == t;
        assert CamelFrom(u, true) == [s[0]] + CamelFrom(t, false);
      } else {
        assert ([s[0]] + t)[1..] == t;
      }
    }
  }

  /** jsonCamelCase inverts jsonSnakeCase exactly on the names without underscores. */
  lemma CamelInvertsSnake(s: bytes)
    ensures Camel(Snake(s)) == s <==> UNDERSCORE !in s
  {
    CamelPlain(Snake(s), false);
    if UNDERSCORE !in s {
      CamelOfSnake(s);
    }
  }

  // ---------------------------------------------------------------- names

  predicate IsLetter(c: byte) {
    IsLower(c) || IsUpper(c) || c == UNDERSCORE
  }

  predicate IsNameByte(c: byte) {
    IsLetter(c) || IsDigit(c)
  }

  /** FullName.IsValid: identifiers with dots between them. `start` tells whether one is to begin here. */
  predicate ValidFrom(s: bytes, start: bool) {
    if s == [] then !start
    else if start then IsLetter(s[0]) && ValidFrom(s[1..], false)
    else if s[0] == DOT then ValidFrom(s[1..], true)
    else IsNameByte(s[0]) && ValidFrom(s[1..], false)
  }

  predicate ValidName(s: bytes) {
    ValidFrom(s, true)
  }

  lemma {:induction false} ValidBytes(s: bytes, start: bool)
    requires ValidFrom(s, start)
    ensures forall i :: 0 <= i < |s| ==> IsNameByte(s[i]) || s[i] == DOT
  {
    if s != [] {
      ValidBytes(s[1..], !start && s[0] == DOT);
    }
  }

  lemma {:induction false} CamelBytes(s: bytes, was: bool)
    requires forall i :: 0 <= i < |s| ==> IsNameByte(s[i]) || s[i] == DOT
    ensures forall i :: 0 <= i < |CamelFrom(s, was)| ==> IsNameByte(CamelFrom(s, was)[i]) || CamelFrom(s, was)[i] == DOT
  {
    if s != [] {
      CamelBytes(s[1..], s[0] == UNDERSCORE);
    }
  }

  // ---------------------------------------------------------------- lists of paths

  /** strings.Join with commas. */
  function Join(parts: seq<bytes>): bytes {
    if parts == [] then []
    else if |parts| == 1 then parts[0]
    else parts[0] + ([COMMA] + Join(parts[1..]))
  }

  /** strings.Split at commas; `head` is the part read so far. */
  function Split(head: bytes, s: bytes): (r: seq<bytes>)
    ensures r != []
    decreases |s|
  {
    if s == [] then [head]
    else if s[0] == COMMA then [head] + Split([], s[1..])
    else Split(head + [s[0]], s[1..])
  }

  /** unicode.IsSpace. */
  predicate IsSpace(r: int) {
    || r == 32 || 9 <= r <= 13 || r == 0x85 || r == 0xA0 || r == 0x1680
    || 0x2000 <= r <= 0x200A || r == 0x2028 || r == 0x2029 || r == 0x202F || r == 0x205F || r == 0x3000
  }

  /** The UTF-8 form of a space of three bytes. */
  predicate IsWideSpace(a: byte, b: byte, c: byte) {
    || (a == 0xE1 && b == 0x9A && c == 0x80)
    || (a == 0xE2 && b == 0x80 && (0x80 <= c <= 0x8A || c == 0xA8 || c == 0xA9 || c == 0xAF))
    || (a == 0xE2 && b == 0x81 && c == 0x9F)
    || (a == 0xE3 && b == 0x80 && c == 0x80)
  }

  /** The length of the space that `s` is, and zero if it is none. */
  function SpaceLength(s: bytes): (n: nat)
    ensures n == 0 || n == |s|
  {
    if |s| == 1 && s[0] < 0x80 && IsSpace(s[0]) then 1
    else if |s| == 2 && s[0] == 0xC2 && (s[1] == 0x85 || s[1] == 0xA0) then 2
    else if |s| == 3 && IsWideSpace(s[0], s[1], s[2]) then 3
    else 0
  }

  /** These are the UTF-8 forms of the spaces. */
  lemma SpacesEncoded(r: int)
    requires IsScalarValue(r)
    ensures SpaceLength(Utf8(r)) > 0 <==> IsSpace(r)
  {
  }

  /** And nothing else is taken for a space. */
  lemma OnlySpaces(s: bytes) returns (r: int)
    requires SpaceLength(s) > 0
    ensures IsScalarValue(r) && IsSpace(r) && s == Utf8(r)
  {
    if |s| < 3 {
      r := s[|s| - 1];
    } else {
      var a: int, b: int, c: int := s[0], s[1], s[2];
      r := (a - 0xE0) * 4096 + (b - 0x80) * 64 + (c - 0x80);
    }
  }

  /** The length of the space at the head of `s`. */
  function SpaceAhead(s: bytes): (n: nat)
    ensures n <= |s|
  {
    if |s| >= 1 && SpaceLength(s[..1]) > 0 then 1
    else if |s| >= 2 && SpaceLength(s[..2]) > 0 then 2
    else if |s| >= 3 && SpaceLength(s[..3]) > 0 then 3
    else 0
  }

  /** The length of the space at the end of `s`. */
  function SpaceBehind(s: bytes): (n: nat)
    ensures n <= |s|
  {
    if |s| >= 1 && SpaceLength(s[|s| - 1..]) > 0 then 1
    else if |s| >= 2 && SpaceLength(s[|s| - 2..]) > 0 then 2
    else if |s| >= 3 && SpaceLength(s[|s| - 3..]) > 0 then 3
    else 0
  }

  /** strings.TrimSpace. */
  function Trim(s: bytes): bytes
    decreases |s|
  {
    if SpaceAhead(s) > 0 then Trim(s[SpaceAhead(s)..])
    else if SpaceBehind(s) > 0 then Trim(s[..|s| - SpaceBehind(s)])
    else s
  }

  /** A byte that is part of no space. */
  predicate IsSolid(c: byte) {
    c < 0x80 && !IsSpace(c)
  }

  predicate AllSolid(s: bytes) {
    forall i :: 0 <= i < |s| ==> IsSolid(s[i])
  }

  lemma SolidIsNoSpace(s: bytes, n: nat)
    requires AllSolid(s) && 0 < n <= |s|
    ensures SpaceLength(s[..n]) == 0 && SpaceLength(s[|s| - n..]) == 0
  {
    assert s[..n][0] == s[0] && s[|s| - n..][0] == s[|s| - n];
    assert IsSolid(s[0]) && IsSolid(s[|s| - n]);
    hide AllSolid;
  }

  lemma NoSpaceAround(s: bytes)
    requires AllSolid(s)
    ensures SpaceAhead(s) == 0 && SpaceBehind(s) == 0
  {
    hide *;
    if |s| >= 1 {
      SolidIsNoSpace(s, 1);
    }
    if |s| >= 2 {
      SolidIsNoSpace(s, 2);
    }
    if |s| >= 3 {
      SolidIsNoSpace(s, 3);
    }
    NoneAround(s);
  }

  lemma NoneAround(s: bytes)
    requires |s| >= 1 ==> SpaceLength(s[..1]) == 0 && SpaceLength(s[|s| - 1..]) == 0
    requires |s| >= 2 ==> SpaceLength(s[..2]) == 0 && SpaceLength(s[|s| - 2..]) == 0
    requires |s| >= 3 ==> SpaceLength(s[..3]) == 0 && SpaceLength(s[|s| - 3..]) == 0
    ensures SpaceAhead(s) == 0 && SpaceBehind(s) == 0
  {
    hide SpaceLength;
  }

  lemma SolidStays(s: bytes)
    requires AllSolid(s)
    ensures Trim(s) == s
  {
    hide SpaceAhead, SpaceBehind, AllSolid;
    NoSpaceAround(s);
  }

  predicate NoComma(s: bytes) {
    COMMA !in s
  }

  lemma {:induction false} SplitPart(head: bytes, p: bytes, s: bytes)
    requires NoComma(p)
    ensures Split(head, p + s) == Split(head + p, s)
    decreases |p|
  {
    if p == [] {
      assert p + s == s && head + p == head;
    } else {
      assert (p + s)[1..] == p[1..] + s;
      assert head + p == (head + [p[0]]) + p[1..];
      SplitPart(head + [p[0]], p[1..], s);
    }
  }

  /** Splitting undoes joining, for one part or more. */
  lemma {:induction false} SplitJoin(parts: seq<bytes>)
    requires parts != [] && forall i :: 0 <= i < |parts| ==> NoComma(parts[i])
    ensures Split([], Join(parts)) == parts
  {
    var p := parts[0];
    assert [] + p == p;
    if |parts| == 1 {
      assert p + [] == p;
      SplitPart([], p, []);
    } else {
      var more := [COMMA] + Join(parts[1..]);
      assert more[1..] == Join(parts[1..]);
      SplitPart([], p, more);
      SplitJoin(parts[1..]);
      assert parts == [p] + parts[1..];
    }
  }

  /** Joining undoes splitting. */
  lemma {:induction false} JoinSplit(head: bytes, s: bytes)
    ensures Join(Split(head, s)) == head + s
    decreases |s|
  {
    if s == [] {
      assert head + s == head;
    } else if s[0] == COMMA {
      JoinSplit([], s[1..]);
      assert [] + s[1..] == s[1..];
      JoinNext(head, Split([], s[1..]));
      assert head + s == head + ([COMMA] + s[1..]);
    } else {
      JoinSplit(head + [s[0]], s[1..]);
      assert head + s == head + [s[0]] + s[1..];
    }
  }

  lemma JoinNext(head: bytes, parts: seq<bytes>)
    requires parts != []
    ensures Join([head] + parts) == head + ([COMMA] + Join(parts))
  {
    assert ([head] + parts)[1..] == parts;
  }

  // ---------------------------------------------------------------- the codec

  /** Whether marshalFieldMask accepts a path. */
  predicate PathOk(s: bytes) {
    ValidName(s) && s == Snake(Camel(s))
  }

  predicate PathsOk(paths: seq<bytes>) {
    forall i :: 0 <= i < |paths| ==> PathOk(paths[i])
  }

  function CamelAll(paths: seq<bytes>): (r: seq<bytes>)
    ensures |r| == |paths| && forall i :: 0 <= i < |r| ==> r[i] == Camel(paths[i])
  {
    seq(|paths|, i requires 0 <= i < |paths| => Camel(paths[i]))
  }

  function SnakeAll(parts: seq<bytes>): (r: seq<bytes>)
    ensures |r| == |parts| && forall i :: 0 <= i < |r| ==> r[i] == Snake(parts[i])
  {
    seq(|parts|, i requires 0 <= i < |parts| => Snake(parts[i]))
  }

  /** The contents of the string marshalFieldMask writes; none when a path is refused. */
  function WriteMask(paths: seq<bytes>): Option<bytes> {
    if PathsOk(paths) then Some(Join(CamelAll(paths))) else None
  }

  predicate PartOk(part: bytes) {
    UNDERSCORE !in part && ValidName(Snake(part))
  }

  /** unmarshalFieldMask on the contents of a string, into a fresh target. */
  function ReadMask(text: bytes): Option<seq<bytes>> {
    var s := Trim(text);
    if s == [] then Some([])
    else
      var parts := Split([], s);
      if forall i :: 0 <= i < |parts| ==> PartOk(parts[i]) then Some(SnakeAll(parts)) else None
  }

  /** What is written for an accepted path is not empty and holds neither a comma nor a space nor an underscore. */
  lemma CamelClean(s: bytes)
    requires PathOk(s)
    ensures Camel(s) != [] && NoComma(Camel(s)) && UNDERSCORE !in Camel(s)
    ensures forall i :: 0 <= i < |Camel(s)| ==> IsSolid(Camel(s)[i])
  {
    ValidBytes(s, true);
    CamelBytes(s, false);
    CamelPlain(s, false);
  }

  lemma {:induction false} JoinClean(parts: seq<bytes>)
    requires parts != [] && forall i :: 0 <= i < |parts| ==> parts[i] != [] && forall j :: 0 <= j < |parts[i]| ==> IsSolid(parts[i][j])
    ensures Join(parts) != [] && forall j :: 0 <= j < |Join(parts)| ==> IsSolid(Join(parts)[j])
  {
    if |parts| > 1 {
      JoinClean(parts[1..]);
    }
  }

  /** Every list of paths that is accepted for writing is read back unchanged. */
  lemma MaskReadsBack(paths: seq<bytes>)
    requires WriteMask(paths).Some?
    ensures ReadMask(WriteMask(paths).value) == Some(paths)
  {
    var parts := CamelAll(paths);
    forall i | 0 <= i < |paths|
      ensures parts[i] != [] && NoComma(parts[i]) && PartOk(parts[i]) && Snake(parts[i]) == paths[i]
      ensures forall j :: 0 <= j < |parts[i]| ==> IsSolid(parts[i][j])
    {
      CamelClean(paths[i]);
    }
    if paths != [] {
      JoinClean(parts);
      SolidStays(Join(parts));
      SplitJoin(parts);
      assert SnakeAll(parts) == paths;
    }
  }

  /** Whatever is accepted for reading is accepted for writing, and is written as it was but for the space around it. */
  lemma MaskWritesBack(text: bytes)
    requires ReadMask(text).Some?
    ensures WriteMask(ReadMask(text).value) == Some(Trim(text))
  {
    var s := Trim(text);
    if s != [] {
      var parts := Split([], s);
      forall i | 0 <= i < |parts| ensures Camel(Snake(parts[i])) == parts[i] && PathOk(Snake(parts[i])) {
        CamelInvertsSnake(parts[i]);
      }
      assert CamelAll(SnakeAll(parts)) == parts;
      JoinSplit([], s);
      assert [] + s == s;
    }
  }

  // ---------------------------------------------------------------- the loops

  lemma CamelDone(s: bytes, was: bool)
    ensures CamelFrom(s[|s|..], was) == []
  {
  }

  /** The conversion of the rest, taken one byte further. */
  lemma CamelNext(s: bytes, i: nat, b: bytes, was: bool)
    requires i < |s|
    ensures b + CamelFrom(s[i..], was) ==
            (if s[i] == UNDERSCORE then b else b + [if was && IsLower(s[i]) then s[i] - 32 else s[i]])
            + CamelFrom(s[i + 1..], s[i] == UNDERSCORE)
  {
    assert s[i..][1..] == s[i + 1..];
  }

  method JsonCamelCase(s: bytes) returns (b: bytes)
    ensures b == Camel(s)
  {
    hide CamelFrom;
    b := [];
    var wasUnderscore := false;
    assert s[0..] == s;
    for i := 0 to |s|
      invariant Camel(s) == b + CamelFrom(s[i..], wasUnderscore)
    {
      var c := s[i];
      CamelNext(s, i, b, wasUnderscore);
      if c != UNDERSCORE {
        if wasUnderscore && IsLower(c) {
          c := c - 32;
        }
        b := b + [c];
      }
      wasUnderscore := s[i] == UNDERSCORE;
    }
    CamelDone(s, wasUnderscore);
  }

  method JsonSnakeCase(s: bytes) returns (b: bytes)
    ensures b == Snake(s)
  {
    b := [];
    for i := 0 to |s|
      invariant Snake(s) == b + Snake(s[i..])
    {
      var c := s[i];
      assert s[i..][1..] == s[i + 1..];
      if IsUpper(c) {
        b := b + [UNDERSCORE];
        c := c + 32;
      }
      b := b + [c];
    }
  }

  /** marshalFieldMask, up to the escaped string it prints. */
  method MarshalFieldMask(list: seq<bytes>) returns (text: bytes, ok: bool)
    ensures WriteMask(list) == if ok then Some(text) else None
  {
    var paths := [];
    for i := 0 to |list|
      invariant |paths| == i && forall j :: 0 <= j < i ==> PathOk(list[j]) && paths[j] == Camel(list[j])
    {
      var s := list[i];
      if !ValidName(s) {
        return [], false;
      }
      var cc := JsonCamelCase(s);
      var back := JsonSnakeCase(cc);
      if s != back {
        return [], false;
      }
      paths := paths + [cc];
    }
    assert paths == CamelAll(list);
    return Join(paths), true;
  }

  /** unmarshalFieldMask behind the string; the target keeps its paths when the text is blank. */
  method UnmarshalFieldMask(text: bytes, target: seq<bytes>) returns (list: seq<bytes>, ok: bool)
    ensures ok <==> ReadMask(text).Some?
    ensures ok ==> list == if Trim(text) == [] then target else ReadMask(text).value
  {
    var s := Trim(text);
    list, ok := target, true;
    if s == [] {
      return;
    }
    var parts := Split([], s);
    list := [];
    for i := 0 to |parts|
      invariant |list| == i && forall j :: 0 <= j < i ==> PartOk(parts[j]) && list[j] == Snake(parts[j])
    {
      var s0 := parts[i];
      var path := JsonSnakeCase(s0);
      if UNDERSCORE in s0 || !ValidName(path) {
        return [], false;
      }
      list := list + [path];
    }
    assert list == SnakeAll(parts);
  }
}
