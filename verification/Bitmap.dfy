/** The 64-bit node bitmap of gpd.c: bit i of a mask stands for node i. */
module Bitmap {

  const WIDTH: nat := 64

  /** 1ULL << i, by doubling. */
  function Bit(i: nat): bv64
    requires i < WIDTH
  {
    if i == 0 then 1 else Bit(i - 1) << 1
  }

  /** m | b */
  function Or(m: bv64, b: bv64): bv64 {
    m | b
  }

  /** m & ~b */
  function AndNot(m: bv64, b: bv64): bv64 {
    m & !b
  }

  /** (m & b) != 0 */
  predicate Test(m: bv64, b: bv64) {
    m & b != 0
  }

  predicate Has(mask: bv64, i: nat)
    requires i < WIDTH
  {
    Test(mask, Bit(i))
  }

  /** The set of nodes a mask stands for. */
  function Members(mask: bv64): set<nat>
  {
    set i: nat | i < WIDTH && Has(mask, i)
  }

  // ---- Facts about machine words, free of any index arithmetic ----

  lemma OrClear(m: bv64, a: bv64, b: bv64)
    requires !Test(m, b) && !Test(a, b)
    ensures !Test(Or(m, a), b)
  {
  }

  lemma OrKeeps(m: bv64, a: bv64, b: bv64)
    requires Test(m, b)
    ensures Test(Or(m, a), b)
  {
  }

  lemma OrSets(m: bv64, a: bv64, b: bv64)
    requires Test(a, b)
    ensures Test(Or(m, a), b)
  {
  }

  lemma AndNotClears(m: bv64, a: bv64)
    ensures !Test(AndNot(m, a), a)
  {
  }

  lemma AndNotStaysClear(m: bv64, a: bv64, b: bv64)
    requires !Test(m, b)
    ensures !Test(AndNot(m, a), b)
  {
  }

  lemma AndNotStaysSet(m: bv64, a: bv64, b: bv64)
    requires !Test(a, b) && Test(m, b)
    ensures Test(AndNot(m, a), b)
  {
    assert (m & !a) & b == m & b;
  }

  lemma DoublingKeepsApart(a: bv64, b: bv64)
    requires !Test(a, b)
    ensures !Test(a << 1, b << 1)
  {
    assert (a << 1) & (b << 1) == (a & b) << 1;
  }

  lemma DoubledIsEven(b: bv64)
    ensures !Test(1, b << 1)
  {
  }

  lemma TestCommutes(a: bv64, b: bv64)
    requires !Test(a, b)
    ensures !Test(b, a)
  {
    assert a & b == b & a;
  }

  lemma TwoSteps(a: bv64, b: bv64, c: bv64)
    ensures b == a << 1 && c == b << 1 ==> c == a << 2
    ensures b == a << 2 && c == b << 2 ==> c == a << 4
  {
  }

  lemma TwoStrides(a: bv64, b: bv64, c: bv64)
    ensures b == a << 4 && c == b << 4 ==> c == a << 8
    ensures b == a << 8 && c == b << 8 ==> c == a << 16
  {
  }

  // ---- Every bit below the width is non-zero: doubling 63 times does not overflow ----

  lemma Plus1(i: nat)
    requires i + 1 < WIDTH
    ensures Bit(i + 1) == Bit(i) << 1
  {
  }

  lemma Plus2(i: nat)
    requires i + 2 < WIDTH
    ensures Bit(i + 2) == Bit(i) << 2
  {
    Plus1(i);
    Plus1(i + 1);
    TwoSteps(Bit(i), Bit(i + 1), Bit(i + 2));
  }

  lemma Plus4(i: nat)
    requires i + 4 < WIDTH
    ensures Bit(i + 4) == Bit(i) << 4
  {
    Plus2(i);
    Plus2(i + 2);
    TwoSteps(Bit(i), Bit(i + 2), Bit(i + 4));
  }

  lemma Plus8(i: nat)
    requires i + 8 < WIDTH
    ensures Bit(i + 8) == Bit(i) << 8
  {
    Plus4(i);
    Plus4(i + 4);
    TwoStrides(Bit(i), Bit(i + 4), Bit(i + 8));
  }

  lemma Plus16(i: nat)
    requires i + 16 < WIDTH
    ensures Bit(i + 16) == Bit(i) << 16
  {
    Plus8(i);
    Plus8(i + 8);
    TwoStrides(Bit(i), Bit(i + 8), Bit(i + 16));
  }

  /** The bits go from the lowest to the highest of the word. */
  lemma TopBit()
    ensures Bit(0) == 1 && Bit(63) == 0x8000_0000_0000_0000
  {
    Plus16(0);
    Plus16(16);
    Plus16(32);
    Plus8(48);
    Plus4(56);
    Plus2(60);
    assert Bit(0) == 1;
  }

  lemma {:induction false} BitNonZero(i: nat)
    requires i < WIDTH
    ensures Bit(i) != 0
    decreases WIDTH - i
  {
    if i == 63 {
      TopBit();
    } else {
      BitNonZero(i + 1);
      var b := Bit(i);
      assert Bit(i + 1) == b << 1;
    }
  }

  /** Distinct nodes have distinct bits. */
  lemma {:induction false} BitsDisjoint(i: nat, j: nat)
    requires i < j < WIDTH
    ensures !Test(Bit(i), Bit(j))
  {
    if i == 0 {
      DoubledIsEven(Bit(j - 1));
    } else {
      BitsDisjoint(i - 1, j - 1);
      DoublingKeepsApart(Bit(i - 1), Bit(j - 1));
    }
  }

  lemma Overlap(i: nat, j: nat)
    requires i < WIDTH && j < WIDTH
    ensures Test(Bit(i), Bit(j)) <==> i == j
  {
    if i == j {
      BitNonZero(i);
      var b := Bit(i);
      assert b & b == b;
    } else if i < j {
      BitsDisjoint(i, j);
    } else {
      BitsDisjoint(j, i);
      TestCommutes(Bit(j), Bit(i));
    }
  }

  // ---- Word operations are set operations ----

  lemma MembersOfZero()
    ensures Members(0) == {}
  {
    forall i: nat | i < WIDTH
      ensures !Has(0, i)
    {
      var b := Bit(i);
      assert 0 & b == 0;
    }
  }

  lemma HasOr(m: bv64, i: nat, j: nat)
    requires i < WIDTH && j < WIDTH
    ensures Has(Or(m, Bit(i)), j) <==> i == j || Has(m, j)
  {
    Overlap(i, j);
    if i == j {
      OrSets(m, Bit(i), Bit(j));
    } else if Has(m, j) {
      OrKeeps(m, Bit(i), Bit(j));
    } else {
      OrClear(m, Bit(i), Bit(j));
    }
  }

  lemma HasAndNot(m: bv64, i: nat, j: nat)
    requires i < WIDTH && j < WIDTH
    ensures Has(AndNot(m, Bit(i)), j) <==> i != j && Has(m, j)
  {
    Overlap(i, j);
    if i == j {
      AndNotClears(m, Bit(i));
    } else if Has(m, j) {
      AndNotStaysSet(m, Bit(i), Bit(j));
    } else {
      AndNotStaysClear(m, Bit(i), Bit(j));
    }
  }

  /** `mask |= bit` adds a node. */
  lemma MembersOr(m: bv64, i: nat)
    requires i < WIDTH
    ensures Members(Or(m, Bit(i))) == Members(m) + {i}
  {
    forall j: nat | j < WIDTH
      ensures Has(Or(m, Bit(i)), j) <==> i == j || Has(m, j)
    {
      HasOr(m, i, j);
    }
  }

  /** `mask &= ~bit` removes a node. */
  lemma MembersAndNot(m: bv64, i: nat)
    requires i < WIDTH
    ensures Members(AndNot(m, Bit(i))) == Members(m) - {i}
  {
    forall j: nat | j < WIDTH
      ensures Has(AndNot(m, Bit(i)), j) <==> i != j && Has(m, j)
    {
      HasAndNot(m, i, j);
    }
  }

  /** `1ULL << i` is a singleton. */
  lemma MembersOfBit(i: nat)
    requires i < WIDTH
    ensures Members(Bit(i)) == {i}
  {
    forall j: nat | j < WIDTH
      ensures Has(Bit(i), j) <==> i == j
    {
      Overlap(i, j);
    }
  }

  /** The test `mask & (1ULL << i)` as a membership test. */
  method Contains(mask: bv64, i: nat) returns (yes: bool)
    requires i < WIDTH
    ensures yes <==> i in Members(mask)
  {
    yes := Has(mask, i);
  }
}
