/**
 The 64-bit masks that remember which fields and oneofs a decode has seen, and the tracker that falls
 back to a slice of booleans when a message has more than 64 oneofs.
 */
module Masks {

  // The operations on words get names, so that proofs above them need not look at single bits.

  function And(a: bv64, b: bv64): bv64 {
    a & b
  }

  function Or(a: bv64, b: bv64): bv64 {
    a | b
  }

  function Xor(a: bv64, b: bv64): bv64 {
    a ^ b
  }

  function Up(a: bv64): bv64 {
    a << 1
  }

  function Below(a: bv64): bv64 {
    a - 1
  }

  const ALL: bv64 := 0xFFFF_FFFF_FFFF_FFFF
  const TOP: bv64 := 0x8000_0000_0000_0000

  /** One shifted left `i` times. */
  function Bit(i: nat): bv64
    requires i < 64
  {
    if i == 0 then 1 else Up(Bit(i - 1))
  }

  predicate HasBit(mask: bv64, i: nat)
    requires i < 64
  {
    And(mask, Bit(i)) != 0
  }

  function With(mask: bv64, i: nat): bv64
    requires i < 64
  {
    Or(mask, Bit(i))
  }

  /** The set of bits of a mask. */
  function Bits(mask: bv64): set<nat> {
    set i: nat | i < 64 && HasBit(mask, i)
  }

  /** The mask in which `n` fields have been seen; all ones when there are 64. */
  function AllSeen(n: nat): bv64
    requires n <= 64
  {
    if n < 64 then Below(Bit(n)) else ALL
  }

  // ---------------------------------------------------------------- words

  lemma AndZero(m: bv64)
    ensures And(m, 0) == 0 && And(0, m) == 0 && And(m, m) == m && And(m, ALL) == m
  {
  }

  lemma AndSwap(a: bv64, b: bv64)
    ensures And(a, b) == And(b, a)
  {
  }

  lemma OrApart(m: bv64, a: bv64, b: bv64)
    requires And(a, b) == 0
    ensures And(Or(m, a), b) == And(m, b)
  {
  }

  lemma OrOwn(m: bv64, a: bv64)
    ensures And(Or(m, a), a) == a
  {
  }

  lemma UpDisjoint(a: bv64, b: bv64)
    requires And(a, b) == 0
    ensures And(Up(a), Up(b)) == 0
  {
  }

  lemma UpEven(a: bv64)
    ensures And(1, Up(a)) == 0
  {
  }

  lemma UpZero()
    ensures Up(0) == 0
  {
  }

  /** `a` has at most one bit. */
  predicate Single(a: bv64) {
    And(a, Below(a)) == 0
  }

  lemma UpSingle(a: bv64)
    requires Single(a)
    ensures Single(Up(a)) && Below(Up(a)) == Or(Below(a), a)
  {
  }

  lemma PickBit(m: bv64, a: bv64)
    requires Single(a)
    ensures And(m, a) == 0 || And(m, a) == a
  {
  }

  lemma AndOr(m: bv64, a: bv64, b: bv64)
    requires And(m, a) == 0 && And(m, b) == 0
    ensures And(m, Or(a, b)) == 0
  {
  }

  lemma XorAnd(a: bv64, b: bv64, m: bv64)
    requires And(a, m) == And(b, m)
    ensures And(Xor(a, b), m) == 0
  {
  }

  lemma XorZero(a: bv64, b: bv64)
    requires Xor(a, b) == 0
    ensures a == b
  {
  }

  lemma Literals()
    ensures Below(1) == 0 && Single(1) && Or(Below(TOP), TOP) == ALL && And(TOP, TOP) != 0 && Single(TOP) && TOP != 0
  {
  }

  // ---------------------------------------------------------------- single bits

  function Ups(a: bv64, n: nat): bv64 {
    if n == 0 then a else Up(Ups(a, n - 1))
  }

  lemma {:induction false} BitAdd(i: nat, n: nat)
    requires i + n < 64
    ensures Bit(i + n) == Ups(Bit(i), n)
  {
    hide Up;
    if n > 0 {
      BitAdd(i, n - 1);
    }
  }

  function UpThree(a: bv64): bv64 {
    a << 3
  }

  lemma ThreeUps(a: bv64)
    ensures Ups(a, 3) == UpThree(a)
  {
    assert Ups(a, 1) == Up(a);
    assert Ups(a, 2) == Up(Up(a));
  }

  lemma BitNine(i: nat, a: bv64)
    requires i + 9 < 64 && Bit(i) == a
    ensures Bit(i + 9) == UpThree(UpThree(UpThree(a)))
  {
    hide Up, Bit, UpThree;
    BitAdd(i, 3);
    ThreeUps(a);
    BitAdd(i + 3, 3);
    ThreeUps(UpThree(a));
    BitAdd(i + 6, 3);
    ThreeUps(UpThree(UpThree(a)));
  }

  lemma TopBit()
    ensures Bit(63) == TOP
  {
    assert Bit(0) == 1;
    hide Up, Bit;
    BitNine(0, 1);
    BitNine(9, 0x200);
    BitNine(18, 0x4_0000);
    BitNine(27, 0x800_0000);
    BitNine(36, 0x10_0000_0000);
    BitNine(45, 0x2000_0000_0000);
    BitNine(54, 0x40_0000_0000_0000);
  }

  lemma {:induction false} BitNonZero(i: nat)
    requires i < 64
    ensures Bit(i) != 0
    decreases 64 - i
  {
    hide Up;
    if i < 63 {
      BitNonZero(i + 1);
      UpZero();
    } else {
      TopBit();
    }
  }

  lemma {:induction false} BitsDisjoint(i: nat, j: nat)
    requires i < j < 64
    ensures And(Bit(i), Bit(j)) == 0
  {
    hide Up, And;
    if i == 0 {
      UpEven(Bit(j - 1));
    } else {
      BitsDisjoint(i - 1, j - 1);
      UpDisjoint(Bit(i - 1), Bit(j - 1));
    }
  }

  /** Two bits overlap if and only if they are the same. */
  lemma BitsOverlap(i: nat, j: nat)
    requires i < 64 && j < 64
    ensures And(Bit(i), Bit(j)) != 0 <==> i == j
  {
    hide Up, And, Bit;
    if i < j {
      BitsDisjoint(i, j);
    } else if j < i {
      BitsDisjoint(j, i);
      AndSwap(Bit(i), Bit(j));
    } else {
      BitNonZero(i);
      AndZero(Bit(i));
    }
  }

  lemma {:induction false} BitSingle(i: nat)
    requires i < 64
    ensures Single(Bit(i))
  {
    hide Up, Below, Single;
    if i == 0 {
      Literals();
    } else {
      BitSingle(i - 1);
      UpSingle(Bit(i - 1));
    }
  }

  // ---------------------------------------------------------------- masks as sets

  lemma HasWith(mask: bv64, i: nat, j: nat)
    requires i < 64 && j < 64
    ensures HasBit(With(mask, i), j) <==> HasBit(mask, j) || j == i
  {
    hide Bit, And, Or;
    BitsOverlap(i, j);
    if i == j {
      OrOwn(mask, Bit(i));
      BitNonZero(i);
    } else {
      OrApart(mask, Bit(i), Bit(j));
    }
  }

  /** Setting a bit adds its number to the set, and to nothing else. */
  lemma BitsSet(mask: bv64, i: nat)
    requires i < 64
    ensures Bits(With(mask, i)) == Bits(mask) + {i}
  {
    hide HasBit, With;
    forall j: nat | j < 64 ensures j in Bits(With(mask, i)) <==> j in Bits(mask) || j == i {
      HasWith(mask, i, j);
    }
  }

  lemma BitsEmpty()
    ensures Bits(0) == {}
  {
    hide And, Bit;
    forall i: nat | i < 64 ensures !HasBit(0, i) {
      AndZero(Bit(i));
    }
  }

  lemma AllSeenNext(n: nat)
    requires 0 < n <= 64
    ensures AllSeen(n) == With(AllSeen(n - 1), n - 1)
  {
    hide Up, Below, Or, Single;
    if n < 64 {
      BitSingle(n - 1);
      UpSingle(Bit(n - 1));
    } else {
      TopBit();
      Literals();
    }
  }

  /** The all-seen constant stands for the set of all fields, also at exactly 64. */
  lemma {:induction false} AllSeenBits(n: nat)
    requires n <= 64
    ensures forall i :: i in Bits(AllSeen(n)) <==> 0 <= i < n
  {
    hide Bits, With, AllSeen;
    if n == 0 {
      assert AllSeen(0) == 0 by {
        AllSeenNone();
      }
      BitsEmpty();
    } else {
      AllSeenBits(n - 1);
      AllSeenNext(n);
      BitsSet(AllSeen(n - 1), n - 1);
    }
  }

  lemma AllSeenNone()
    ensures AllSeen(0) == 0
  {
    Literals();
  }

  lemma SameAt(a: bv64, b: bv64, i: nat, low: bv64)
    requires i < 64 && HasBit(a, i) == HasBit(b, i) && And(Xor(a, b), low) == 0
    ensures And(Xor(a, b), With(low, i)) == 0
  {
    hide And, Or, Xor, Bit, Single;
    BitSingle(i);
    PickBit(a, Bit(i));
    PickBit(b, Bit(i));
    XorAnd(a, b, Bit(i));
    AndOr(Xor(a, b), low, Bit(i));
  }

  lemma SameHas(a: bv64, b: bv64, i: nat)
    requires i < 64 && Bits(a) == Bits(b)
    ensures HasBit(a, i) == HasBit(b, i)
  {
    hide HasBit;
    assert HasBit(a, i) <==> i in Bits(a);
    assert HasBit(b, i) <==> i in Bits(b);
  }

  lemma {:induction false} SameBelow(a: bv64, b: bv64, n: nat)
    requires n <= 64 && Bits(a) == Bits(b)
    ensures And(Xor(a, b), AllSeen(n)) == 0
  {
    hide And, Xor, With, AllSeen, HasBit, Bits;
    if n == 0 {
      AllSeenNone();
      AndZero(Xor(a, b));
    } else {
      SameBelow(a, b, n - 1);
      SameHas(a, b, n - 1);
      SameAt(a, b, n - 1, AllSeen(n - 1));
      AllSeenNext(n);
    }
  }

  /** A mask is determined by its set. */
  lemma SameBits(a: bv64, b: bv64)
    requires Bits(a) == Bits(b)
    ensures a == b
  {
    hide And, Xor, Bits;
    SameBelow(a, b, 64);
    AndZero(Xor(a, b));
    XorZero(a, b);
  }

  /** A mask is the all-seen constant if and only if every field has been seen. */
  lemma AllSeenExact(mask: bv64, n: nat)
    requires n <= 64 && forall i :: i in Bits(mask) ==> i < n
    ensures mask == AllSeen(n) <==> forall i :: 0 <= i < n ==> i in Bits(mask)
  {
    hide Bits, AllSeen;
    AllSeenBits(n);
    if forall i :: 0 <= i < n ==> i in Bits(mask) {
      assert Bits(mask) == Bits(AllSeen(n));
      SameBits(mask, AllSeen(n));
    }
  }

  // ---------------------------------------------------------------- oneofs

  /** oneofTracker: a mask, or a slice of booleans when there are more than 64 oneofs. */
  class OneofTracker {
    var mask: bv64
    const slice: array?<bool>
    const count: nat

    /** The oneofs that have been set. */
    ghost function Seen(): set<nat>
      reads this, slice
    {
      if slice == null then Bits(mask) else set i: nat | i < slice.Length && slice[i]
    }

    ghost predicate Valid() {
      if slice == null then count <= 64 else slice.Length == count
    }

    constructor (count: nat)
      ensures Valid() && this.count == count && Seen() == {}
      ensures slice != null ==> fresh(slice)
    {
      this.count := count;
      mask := 0;
      if count > 64 {
        slice := new bool[count](_ => false);
      } else {
        slice := null;
      }
      new;
      BitsEmpty();
    }

    method Has(idx: nat) returns (r: bool)
      requires Valid() && idx < count
      ensures r <==> idx in Seen()
    {
      hide HasBit;
      if slice != null {
        r := slice[idx];
      } else {
        r := HasBit(mask, idx);
      }
    }

    method Set(idx: nat)
      requires Valid() && idx < count
      modifies this, slice
      ensures Seen() == old(Seen()) + {idx}
    {
      hide HasBit, With;
      if slice != null {
        slice[idx] := true;
      } else {
        BitsSet(mask, idx);
        mask := With(mask, idx);
      }
    }
  }
}
