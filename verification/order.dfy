/**
 Sorted enumerations of key sets. A map is printed in the order of its keys, so its text depends
 on the set of keys and not on the order in which the map was enumerated.
 */
module Order {
  import opened Bytes

  /** strings.Compare(a, b) < 0. */
  predicate LexLess(a: bytes, b: bytes) {
    if b == [] then false
    else if a == [] then true
    else if a[0] != b[0] then a[0] < b[0]
    else LexLess(a[1..], b[1..])
  }

  lemma {:induction false} LexTotal(a: bytes, b: bytes)
    ensures LexLess(a, b) || a == b || LexLess(b, a)
    ensures !(LexLess(a, b) && LexLess(b, a))
    ensures LexLess(a, b) ==> a != b
  {
    if a != [] && b != [] {
      LexTotal(a[1..], b[1..]);
      if a[0] == b[0] && a[1..] == b[1..] {
        assert a == [a[0]] + a[1..];
        assert b == [b[0]] + b[1..];
      }
    }
  }

  lemma {:induction false} LexTrans(a: bytes, b: bytes, c: bytes)
    requires LexLess(a, b) && LexLess(b, c)
    ensures LexLess(a, c)
  {
    if a != [] && a[0] == b[0] && b[0] == c[0] {
      LexTrans(a[1..], b[1..], c[1..]);
    }
  }

  /** A strict total order. */
  ghost predicate IsOrder<K(!new)>(less: (K, K) -> bool) {
    && (forall a :: !less(a, a))
    && (forall a, b :: less(a, b) || a == b || less(b, a))
    && (forall a, b, c :: less(a, b) && less(b, c) ==> less(a, c))
  }

  lemma LexIsOrder()
    ensures IsOrder(LexLess)
  {
    forall a, b ensures LexLess(a, b) || a == b || LexLess(b, a) {
      LexTotal(a, b);
    }
    forall a ensures !LexLess(a, a) {
      LexTotal(a, a);
    }
    forall a, b, c | LexLess(a, b) && LexLess(b, c) ensures LexLess(a, c) {
      LexTrans(a, b, c);
    }
  }

  ghost predicate Ascending<K(!new)>(less: (K, K) -> bool, s: seq<K>) {
    forall i, j :: 0 <= i < j < |s| ==> less(s[i], s[j])
  }

  function Elements<K>(s: seq<K>): set<K> {
    set x | x in s
  }

  lemma EmptyElements<K>(s: seq<K>)
    ensures Elements(s) == {} <==> s == []
  {
    if s != [] {
      assert s[0] in Elements(s);
    }
  }

  /** A set has at most one ascending enumeration. */
  lemma {:induction false} AscendingUnique<K(!new)>(less: (K, K) -> bool, s: seq<K>, t: seq<K>)
    requires IsOrder(less) && Ascending(less, s) && Ascending(less, t)
    requires Elements(s) == Elements(t)
    ensures s == t
  {
    EmptyElements(s);
    EmptyElements(t);
    if s == [] {
      assert t == [];
    } else {
      assert s[0] in Elements(t);
      assert t != [] && t[0] in Elements(s);
      HeadIsLeast(less, s, t[0]);
      HeadIsLeast(less, t, s[0]);
      TailElements(less, s);
      TailElements(less, t);
      AscendingUnique(less, s[1..], t[1..]);
      assert s == [s[0]] + s[1..] == t;
    }
  }

  lemma HeadIsLeast<K(!new)>(less: (K, K) -> bool, s: seq<K>, x: K)
    requires Ascending(less, s) && x in s
    ensures x == s[0] || less(s[0], x)
  {
  }

  lemma TailElements<K(!new)>(less: (K, K) -> bool, s: seq<K>)
    requires IsOrder(less) && Ascending(less, s) && s != []
    ensures Elements(s[1..]) == Elements(s) - {s[0]}
    ensures Ascending(less, s[1..])
  {
    assert s == [s[0]] + s[1..];
    forall x | x in Elements(s[1..]) ensures x != s[0] {
      var i :| 0 <= i < |s[1..]| && s[1..][i] == x;
      assert less(s[0], s[i + 1]);
    }
  }

  /** Insertion of a new key into an ascending sequence. */
  function Insert<K>(less: (K, K) -> bool, x: K, s: seq<K>): seq<K> {
    if s == [] then [x]
    else if less(x, s[0]) then [x] + s
    else [s[0]] + Insert(less, x, s[1..])
  }

  /** Sorting, specified by what it yields on distinct keys: their ascending enumeration. */
  function Sort<K>(less: (K, K) -> bool, s: seq<K>): seq<K> {
    if s == [] then [] else Insert(less, s[0], Sort(less, s[1..]))
  }

  lemma Compare<K(!new)>(less: (K, K) -> bool, a: K, b: K)
    requires IsOrder(less)
    ensures less(a, b) || a == b || less(b, a)
  {
  }

  lemma Chain<K(!new)>(less: (K, K) -> bool, a: K, b: K, c: K)
    requires IsOrder(less) && less(a, b) && less(b, c)
    ensures less(a, c)
  {
  }

  /** A least element in front of an ascending sequence. */
  lemma Prepend<K(!new)>(less: (K, K) -> bool, x: K, s: seq<K>)
    requires Ascending(less, s) && forall j :: 0 <= j < |s| ==> less(x, s[j])
    ensures Ascending(less, [x] + s) && Elements([x] + s) == Elements(s) + {x}
  {
  }

  lemma {:induction false} InsertAscends<K(!new)>(less: (K, K) -> bool, x: K, s: seq<K>)
    requires IsOrder(less) && Ascending(less, s) && x !in s
    ensures Ascending(less, Insert(less, x, s))
    ensures Elements(Insert(less, x, s)) == Elements(s) + {x}
  {
    if s == [] {
    } else if less(x, s[0]) {
      forall j | 0 <= j < |s| ensures less(x, s[j]) {
        if j > 0 {
          Chain(less, x, s[0], s[j]);
        }
      }
      Prepend(less, x, s);
    } else {
      Compare(less, x, s[0]);
      TailElements(less, s);
      InsertAscends(less, x, s[1..]);
      var r := Insert(less, x, s[1..]);
      hide IsOrder, Insert;
      forall j | 0 <= j < |r| ensures less(s[0], r[j]) {
        assert r[j] in Elements(r);
        if r[j] != x {
          assert r[j] in s[1..];
        }
      }
      Prepend(less, s[0], r);
      assert Elements(s) == Elements(s[1..]) + {s[0]};
    }
  }

  predicate Distinct<K(==)>(s: seq<K>) {
    forall i, j :: 0 <= i < j < |s| ==> s[i] != s[j]
  }

  lemma {:induction false} SortAscends<K(!new)>(less: (K, K) -> bool, s: seq<K>)
    requires IsOrder(less) && Distinct(s)
    ensures Ascending(less, Sort(less, s))
    ensures Elements(Sort(less, s)) == Elements(s)
  {
    if s != [] {
      assert s == [s[0]] + s[1..];
      SortAscends(less, s[1..]);
      assert forall i :: 0 <= i < |s[1..]| ==> s[1..][i] == s[i + 1] != s[0];
      assert s[0] !in Elements(Sort(less, s[1..]));
      InsertAscends(less, s[0], Sort(less, s[1..]));
    }
  }

  /** Some enumeration of a finite set, without repetition. */
  ghost function Enumerate<K(!new)>(ks: set<K>): (s: seq<K>)
    ensures Distinct(s) && Elements(s) == ks
  {
    if ks == {} then []
    else
      var x :| x in ks;
      var s := Enumerate(ks - {x});
      assert x !in s by { assert x !in Elements(s); }
      assert Elements([x] + s) == {x} + Elements(s);
      [x] + s
  }

  /** The ascending enumeration of a finite set. */
  ghost function Sorted<K(!new)>(less: (K, K) -> bool, ks: set<K>): (s: seq<K>)
    requires IsOrder(less)
    ensures Ascending(less, s) && Elements(s) == ks
  {
    SortAscends(less, Enumerate(ks));
    Sort(less, Enumerate(ks))
  }

  /** In whatever order the keys come, sorting them gives the same sequence. */
  lemma SortCanonical<K(!new)>(less: (K, K) -> bool, s: seq<K>)
    requires IsOrder(less) && Distinct(s)
    ensures Sort(less, s) == Sorted(less, Elements(s))
  {
    SortAscends(less, s);
    AscendingUnique(less, Sort(less, s), Sorted(less, Elements(s)));
  }

  /** The keys of a string map in byte order. */
  ghost function StringKeys(ks: set<bytes>): (s: seq<bytes>)
    ensures Ascending(LexLess, s) && Elements(s) == ks
  {
    LexIsOrder();
    Sorted(LexLess, ks)
  }

  // ---------------------------------------------------------------- parts of a map

  /** The part of a map that the first `i` keys make up. */
  ghost function Upto<V>(keys: seq<bytes>, i: nat, m: map<bytes, V>): map<bytes, V>
    requires i <= |keys|
  {
    map x | x in m && x in keys[..i] :: m[x]
  }

  lemma UptoNone<V>(keys: seq<bytes>, m: map<bytes, V>)
    ensures Upto(keys, 0, m) == map[]
  {
  }

  lemma UptoAll<V>(keys: seq<bytes>, m: map<bytes, V>)
    requires Elements(keys) == m.Keys
    ensures Upto(keys, |keys|, m) == m
  {
    assert keys[..|keys|] == keys;
    assert forall x :: x in m ==> x in Elements(keys);
  }

  lemma UptoNext<V>(keys: seq<bytes>, i: nat, m: map<bytes, V>)
    requires i < |keys| && keys[i] in m
    ensures Distinct(keys) ==> keys[i] !in Upto(keys, i, m)
    ensures Upto(keys, i + 1, m) == Upto(keys, i, m)[keys[i] := m[keys[i]]]
  {
    assert keys[..i + 1] == keys[..i] + [keys[i]];
  }
}
