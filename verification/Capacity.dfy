/** The table size computation of src/htable/htable_chkcapacity.c: round up to a power of
    two by smearing the highest bit to the right, and refuse what is too large. */
module Capacity {
  import opened Common
  import opened Bits

  const MINTBLSIZE: nat := 8
  const MAXTBLSIZE: nat := 0x4000_0000  // 1U << 30, the 64-bit build

  /** p is the smallest power of two that is at least n. */
  ghost predicate LeastPow2(p: nat, n: nat) {
    && IsPow2(p) && n <= p
    && forall q: nat :: IsPow2(q) && n <= q ==> p <= q
  }

  /** The j highest of the bits 0..m of x are all set. */
  ghost predicate TopOnes(x: nat, m: nat, j: nat) {
    && x < Pow2(m + 1)
    && forall i: nat :: m < i + j && i <= m ==> Bit(x, i) == 1
  }

  function SmearStep(x: nat, s: nat): nat {
    Or(x, Shr(x, s))
  }

  /** One step `x |= x >> s` doubles the run of ones below the highest bit. */
  lemma SmearDoubles(x: nat, m: nat, s: nat)
    requires s > 0 && TopOnes(x, m, s)
    ensures TopOnes(SmearStep(x, s), m, 2 * s)
    ensures x <= SmearStep(x, s)
  {
    ShrShrinks(x, s);
    OrBound(x, Shr(x, s), m + 1);
    OrAtLeast(x, Shr(x, s));
    forall i: nat | m < i + 2 * s && i <= m ensures Bit(SmearStep(x, s), i) == 1 {
      OrBit(x, Shr(x, s), i);
      ShrBit(x, s, i);
    }
  }

  /** The five steps turn any 32-bit number that is no power of two into the next power
      of two less one. */
  lemma SmearFills(x: nat, y: nat)
    requires 0 < x < 0x1_0000_0000 && !IsPow2(x)
    requires y == SmearStep(SmearStep(SmearStep(SmearStep(SmearStep(x, 1), 2), 4), 8), 16)
    ensures LeastPow2(y + 1, x)
  {
    var m := SmearOnes(x, y);
    AllBitsSet(y, m + 1);
    forall q: nat | IsPow2(q) && x <= q ensures y + 1 <= q {
      var k: nat :| q == Pow2(k);
      assert x != Pow2(m);
      Pow2Reflects(m, k);
      Pow2Monotone(m + 1, k);
    }
  }

  /** After the steps all bits up to the highest of x are set. */
  lemma SmearOnes(x: nat, y: nat) returns (m: nat)
    requires 0 < x < 0x1_0000_0000
    requires y == SmearStep(SmearStep(SmearStep(SmearStep(SmearStep(x, 1), 2), 4), 8), 16)
    ensures Pow2(m) <= x < Pow2(m + 1) && y < Pow2(m + 1)
    ensures forall i: nat :: i < m + 1 ==> Bit(y, i) == 1
  {
    m := TopBit(x);
    assert TopOnes(x, m, 1);
    hide SmearStep, TopOnes;
    SmearDoubles(x, m, 1);
    var x1 := SmearStep(x, 1);
    SmearDoubles(x1, m, 2);
    var x2 := SmearStep(x1, 2);
    SmearDoubles(x2, m, 4);
    var x4 := SmearStep(x2, 4);
    SmearDoubles(x4, m, 8);
    var x8 := SmearStep(x4, 8);
    SmearDoubles(x8, m, 16);
    assert m < 32 by {
      if m >= 32 { Pow2Monotone(32, m); Pow2Of32(); }
    }
    FullOnes(y, m);
  }

  lemma FullOnes(y: nat, m: nat)
    requires m < 32 && TopOnes(y, m, 32)
    ensures y < Pow2(m + 1) && forall i: nat :: i < m + 1 ==> Bit(y, i) == 1
  {
  }

  lemma Pow2Of32()
    ensures Pow2(32) == 0x1_0000_0000
  {
    assert Pow2(8) == 256;
    assert Pow2(16) == 0x1_0000;
    assert Pow2(24) == 0x100_0000;
  }

  lemma MaxIsPow2()
    ensures MAXTBLSIZE == Pow2(30)
  {
    Pow2Of32();
    assert Pow2(32) == 4 * Pow2(30);
  }

  /** `ipcl_htable_chkcapacity`. None is the ERANGE failure. */
  method ChkCapacity(request: nat) returns (r: Option<nat>)
    requires request < 0x1_0000_0000
    ensures r.Some? ==> LeastPow2(r.value, Max(request, MINTBLSIZE)) && r.value <= MAXTBLSIZE
    ensures r.None? ==> forall p: nat :: LeastPow2(p, Max(request, MINTBLSIZE)) ==> p > MAXTBLSIZE
  {
    var capacity := Max(request, MINTBLSIZE);
    AndPredecessor(capacity);
    if And(capacity, capacity - 1) != 0 {
      var x := capacity;
      x := Or(x, Shr(x, 1));
      x := Or(x, Shr(x, 2));
      x := Or(x, Shr(x, 4));
      x := Or(x, Shr(x, 8));
      x := Or(x, Shr(x, 16));
      SmearFills(capacity, x);
      capacity := x + 1;
    }
    assert LeastPow2(capacity, Max(request, MINTBLSIZE));
    if capacity > MAXTBLSIZE {
      return None;
    }
    return Some(capacity);
  }

  /** The least power of two is unique, so ChkCapacity's contract fixes its result. */
  lemma LeastPow2Unique(p: nat, q: nat, n: nat)
    requires LeastPow2(p, n) && LeastPow2(q, n)
    ensures p == q
  {
  }

  /** A power of two of at least the minimum size is its own rounding. */
  lemma Pow2IsLeast(p: nat)
    requires IsPow2(p)
    ensures LeastPow2(p, p)
  {
  }
}
