/** The size arithmetic of src/tlsf.c on the 64-bit build: alignment, size classes, and the rounding
    that makes the search a good fit. */
module TlsfMapping {
  import opened Bits

  const ALIGN_SIZE := 8
  const SL_INDEX_COUNT_LOG2 := 5
  const SL_INDEX_COUNT := 32
  const FL_INDEX_SHIFT := 8
  const FL_INDEX_COUNT := 25
  const SMALL_BLOCK_SIZE := 256
  const BLOCK_OVERHEAD := 8
  const HEADER_SIZE := 32
  const BLOCK_SIZE_MIN := 24
  const BLOCK_SIZE_MAX := 0x1_0000_0000
  const SIZE_T := 0x1_0000_0000_0000_0000

  // ---------------------------------------------------------------- alignment

  /** Clearing low bits, as an arithmetic operation; see MaskRoundsDown. */
  function AlignDown(x: nat, align: nat): nat
    requires align > 0
  {
    x - x % align
  }

  /** The sum wraps around in 64 bits before the mask is applied. */
  function AlignUp(x: nat, align: nat): nat
    requires align > 0
  {
    AlignDown((x + (align - 1)) % SIZE_T, align)
  }

  /** `& ~(align - 1)` is rounding down to a multiple, for the powers of two the code insists on. */
  lemma MaskRoundsDown(x: nat, k: nat)
    requires x < SIZE_T && k < 64
    ensures Pow2(k) <= Pow2(64)
    ensures And(x, Not(64, Pow2(k) - 1)) == AlignDown(x, Pow2(k))
  {
    assert Pow2(64) == SIZE_T by { Pow64(); }
    Pow2Monotone(k, 64);
    AndMask(64, k, x);
  }

  lemma Pow64()
    ensures Pow2(32) == BLOCK_SIZE_MAX && Pow2(64) == SIZE_T
  {
    assert Pow2(8) == 256;
    assert Pow2(16) == 0x1_0000;
    assert Pow2(24) == 0x100_0000;
    assert Pow2(32) == 0x1_0000_0000;
    assert Pow2(40) == 0x100_0000_0000;
    assert Pow2(48) == 0x1_0000_0000_0000;
    assert Pow2(56) == 0x100_0000_0000_0000;
  }

  function AdjustRequestSize(size: nat, align: nat): nat
    requires align > 0
  {
    if size == 0 then 0
    else
      var aligned := AlignUp(size, align);
      if aligned < BLOCK_SIZE_MAX then (if aligned < BLOCK_SIZE_MIN then BLOCK_SIZE_MIN else aligned) else 0
  }

  lemma AlignDownIsLargest(x: nat, align: nat)
    requires align > 0
    ensures AlignDown(x, align) <= x < AlignDown(x, align) + align && AlignDown(x, align) % align == 0
  {
    ModUnique(AlignDown(x, align), align, x / align, 0);
  }

  /** An adjusted size is 0 or large enough for the request, exactly when rounding up does not wrap
      around; a request within `align - 1` of 2^64 is granted the smallest block instead. */
  lemma AdjustMeetsRequest(size: nat, align: nat)
    requires 0 < size < SIZE_T && 0 < align <= SIZE_T / 2
    ensures AdjustRequestSize(size, align) == 0 || AdjustRequestSize(size, align) >= size <==>
      size + (align - 1) < SIZE_T
  {
    var y := size + (align - 1);
    if y < SIZE_T {
      AlignDownIsLargest(y, align);
    } else {
      ModUnique(y, SIZE_T, 1, y - SIZE_T);
      AlignDownIsLargest(y - SIZE_T, align);
      ModUnique(y - SIZE_T, align, 0, y - SIZE_T);
    }
  }

  /** What the allocator relies on when it adjusts to its own alignment. */
  lemma AdjustedIsLegal(size: nat)
    ensures var a := AdjustRequestSize(size, ALIGN_SIZE);
      a == 0 || (BLOCK_SIZE_MIN <= a < BLOCK_SIZE_MAX && a % 8 == 0)
    ensures 0 < size <= BLOCK_SIZE_MAX - 8 ==>
      var a := AdjustRequestSize(size, ALIGN_SIZE); size <= a && a <= (if size < 24 then 24 else size + 7)
  {
    AlignDownIsLargest((size + 7) % SIZE_T, 8);
  }

  /** The sizes that are adjusted to 0, and those within 7 bytes of 2^64, for which the sum wraps. */
  lemma AdjustIsZero(size: nat)
    requires size < SIZE_T
    ensures AdjustRequestSize(size, ALIGN_SIZE) == 0 <==> size == 0 || BLOCK_SIZE_MAX - 8 < size <= SIZE_T - 8
    ensures size > SIZE_T - 8 ==> AdjustRequestSize(size, ALIGN_SIZE) == BLOCK_SIZE_MIN
  {
    if size > SIZE_T - 8 {
      ModUnique(size + 7, SIZE_T, 1, size + 7 - SIZE_T);
    } else {
      AlignDownIsLargest(size + 7, 8);
    }
  }

  // ---------------------------------------------------------------- size classes

  datatype Class = Class(fl: int, sl: int)
  {
    function Index(): int { fl * SL_INDEX_COUNT + sl }
  }

  lemma FlsLarge(size: nat)
    requires size >= SMALL_BLOCK_SIZE
    ensures Fls(size) >= 8
  {
    FlsBounds(size);
    assert Pow2(8) == 256;
    if Fls(size) < 8 { Pow2Monotone(Fls(size) + 1, 8); }
  }

  function MappingInsert(size: nat): Class {
    if size < SMALL_BLOCK_SIZE then Class(0, size / (SMALL_BLOCK_SIZE / SL_INDEX_COUNT))
    else
      FlsLarge(size);
      var fl := Fls(size);
      Class(fl - (FL_INDEX_SHIFT - 1), Xor(Shr(size, fl - SL_INDEX_COUNT_LOG2), SL_INDEX_COUNT))
  }

  function RoundUp(size: nat): nat {
    if size < SMALL_BLOCK_SIZE then size
    else
      FlsLarge(size);
      size + Pow2(Fls(size) - SL_INDEX_COUNT_LOG2) - 1
  }

  function MappingSearch(size: nat): Class {
    MappingInsert(RoundUp(size))
  }

  /** Smallest size of the class with index `i`. */
  function ClassMin(i: nat): nat {
    if i < SL_INDEX_COUNT then 8 * i
    else (SL_INDEX_COUNT + i % SL_INDEX_COUNT) * Pow2(i / SL_INDEX_COUNT + 2)
  }

  lemma XorTop(x: nat)
    requires 32 <= x < 64
    ensures Xor(x, 32) == x - 32
  {
    assert Pow2(5) == 32;
    assert Xor(1, 1) == 0;
    XorSplit(5, x - 32, 1, 0, 1);
    XorWithZero(x - 32);
  }

  lemma {:induction false} XorWithZero(x: nat)
    ensures Xor(x, 0) == x
  {
    if x > 0 { XorWithZero(x / 2); }
  }

  /** The two indices of a large size: `size` lies in the `sl`-th of 32 equal parts of [2^f, 2^(f+1)). */
  lemma LargeClass(size: nat, f: nat, u: nat) returns (q: nat)
    requires size >= SMALL_BLOCK_SIZE && f >= 8 && u == Pow2(f - 5) && 32 * u <= size < 64 * u
    ensures 32 <= q < 64 && q * u <= size < q * u + u
    ensures MappingInsert(size) == Class(f - 7, q - 32)
  {
    Pow5(f - 5);
    FlsUnique(size, f);
    q := Shr(size, f - 5);
    ShrBounds(size, f - 5);
    QuotientBetween(q, u, size);
    XorTop(q);
  }

  lemma QuotientBetween(q: nat, u: nat, size: nat)
    requires u > 0 && q * u <= size < q * u + u && 32 * u <= size < 64 * u
    ensures 32 <= q < 64
  {
    assert (q + 1) * u == q * u + u;
    if q < 32 { MulMonotone(q + 1, 32, u); }
    if q >= 64 { MulMonotone(64, q, u); }
  }

  lemma Pow5(k: nat)
    ensures Pow2(k + 5) == 32 * Pow2(k)
  {
    assert Pow2(k + 5) == 2 * Pow2(k + 4) && Pow2(k + 4) == 2 * Pow2(k + 3) && Pow2(k + 3) == 2 * Pow2(k + 2);
    assert Pow2(k + 2) == 2 * Pow2(k + 1);
  }

  lemma MulMonotone(a: nat, b: nat, u: nat)
    requires a <= b
    ensures a * u <= b * u
  {
  }

  /** The class of a size is the one whose range holds it, and its indices are in range exactly below
      the limit: a pool of the largest size the code admits would fall off the table. */
  lemma ClassHoldsSize(size: nat)
    ensures var c := MappingInsert(size);
      && 0 <= c.fl && 0 <= c.sl < SL_INDEX_COUNT
      && ClassMin(c.Index()) <= size < ClassMin(c.Index() + 1)
      && (c.fl < FL_INDEX_COUNT <==> size < BLOCK_SIZE_MAX)
  {
    if size < SMALL_BLOCK_SIZE { SmallClassHolds(size); } else { LargeClassHolds(size); }
  }

  lemma SmallClassHolds(size: nat)
    requires size < SMALL_BLOCK_SIZE
    ensures ClassMin(size / 8) <= size < ClassMin(size / 8 + 1)
  {
    FirstLargeClass();
  }

  lemma FirstLargeClass()
    ensures ClassMin(32) == 256
  {
    assert ClassMin(32) == 32 * Pow2(3);
    assert Pow2(3) == 8;
  }

  lemma LargeClassHolds(size: nat)
    requires size >= SMALL_BLOCK_SIZE
    ensures var c := MappingInsert(size);
      && 0 <= c.fl && 0 <= c.sl < SL_INDEX_COUNT
      && ClassMin(c.Index()) <= size < ClassMin(c.Index() + 1)
      && (c.fl < FL_INDEX_COUNT <==> size < BLOCK_SIZE_MAX)
  {
    FlsLarge(size);
    var f := Fls(size);
    var u := Pow2(f - 5);
    LargeBounds(size, f, u);
    LargeClassIs(size, f, u);
    LargeInRange(size, f);
  }

  lemma LargeClassIs(size: nat, f: nat, u: nat)
    requires size >= SMALL_BLOCK_SIZE && f >= 8 && u == Pow2(f - 5) && 32 * u <= size < 64 * u
    ensures var c := MappingInsert(size);
      c.fl == f - 7 && 0 <= c.sl < 32 && ClassMin(c.Index()) <= size < ClassMin(c.Index() + 1)
  {
    var q := LargeClass(size, f, u);
    NextClassMin((f - 7) * 32 + (q - 32), f, u, q);
  }

  lemma LargeInRange(size: nat, f: nat)
    requires size >= SMALL_BLOCK_SIZE && f == Fls(size)
    ensures f - 7 < FL_INDEX_COUNT <==> size < BLOCK_SIZE_MAX
  {
    Pow64();
    FlsBounds(size);
    if f <= 31 { Pow2Monotone(f + 1, 32); } else { Pow2Monotone(32, f); }
  }

  lemma DivMod32(a: nat, b: nat)
    requires b < 32
    ensures (a * 32 + b) / 32 == a && (a * 32 + b) % 32 == b
  {
  }

  lemma NextClassMin(i: nat, f: nat, u: nat, q: nat)
    requires f >= 8 && u == Pow2(f - 5) && 32 <= q < 64 && i == (f - 7) * 32 + (q - 32)
    ensures ClassMin(i) == q * u && ClassMin(i + 1) == q * u + u
  {
    DivMod32(f - 7, q - 32);
    assert (q + 1) * u == q * u + u;
    if q < 63 {
      DivMod32(f - 7, q - 31);
    } else {
      DivMod32(f - 6, 0);
      assert Pow2(f - 6 + 2) == 2 * u;
      assert 32 * (2 * u) == 64 * u;
    }
  }

  lemma {:induction false} ClassMinMonotone(i: nat, j: nat)
    requires i <= j
    ensures ClassMin(i) <= ClassMin(j)
    decreases j
  {
    if i < j {
      ClassMinMonotone(i, j - 1);
      ClassMinStep(j - 1);
    }
  }

  lemma ClassMinStep(i: nat)
    ensures ClassMin(i) <= ClassMin(i + 1)
  {
    if i >= 32 {
      var f, q := i / 32 + 7, i % 32 + 32;
      var u := Pow2(f - 5);
      NextClassMin(i, f, u, q);
      MulMonotone(q, q + 1, u);
    } else if i == 31 {
      assert ClassMin(32) == 32 * Pow2(3) == 256;
    }
  }

  /** Larger sizes never have smaller class indices. */
  lemma MappingMonotone(s: nat, t: nat)
    requires s <= t
    ensures MappingInsert(s).Index() <= MappingInsert(t).Index()
  {
    ClassHoldsSize(s);
    ClassHoldsSize(t);
    var i, j := MappingInsert(s).Index(), MappingInsert(t).Index();
    if i > j { ClassMinMonotone(j + 1, i); }
  }

  /** Every size of the class that is searched, or of a higher one, is at least the request, and the
      search asks for less than 1/32 more than the request. */
  lemma GoodFit(size: nat, t: nat)
    requires size % 8 == 0
    ensures MappingInsert(t).Index() >= MappingSearch(size).Index() ==> t >= size
    ensures t >= RoundUp(size) ==> MappingInsert(t).Index() >= MappingSearch(size).Index()
    ensures size > 0 ==> 32 * (RoundUp(size) - size) < size
  {
    var x := RoundUp(size);
    ClassHoldsSize(x);
    ClassHoldsSize(t);
    if t >= x { MappingMonotone(x, t); }
    SearchedClass(size);
    if size > 0 { RoundingIsSmall(size); }
    if MappingInsert(t).Index() >= MappingInsert(x).Index() {
      ClassMinMonotone(MappingInsert(x).Index(), MappingInsert(t).Index());
    }
  }

  lemma SearchedClass(size: nat)
    requires size % 8 == 0
    ensures MappingSearch(size).Index() >= 0 && size <= ClassMin(MappingSearch(size).Index())
  {
    if size < SMALL_BLOCK_SIZE { SearchedSmall(size); } else { SearchedRounded(size); }
  }

  lemma SearchedSmall(size: nat)
    requires size % 8 == 0 && size < SMALL_BLOCK_SIZE
    ensures MappingSearch(size).Index() == size / 8 && ClassMin(size / 8) == size
  {
  }

  lemma SearchedRounded(size: nat)
    requires size >= SMALL_BLOCK_SIZE
    ensures MappingSearch(size).Index() >= 0 && size <= ClassMin(MappingSearch(size).Index())
  {
    FlsLarge(size);
    var f := Fls(size);
    var u := Pow2(f - 5);
    LargeBounds(size, f, u);
    SearchedLarge(size, f, u);
  }

  lemma SearchedLarge(size: nat, f: nat, u: nat)
    requires f >= 8 && u == Pow2(f - 5) && 32 * u <= size < 64 * u
    requires size >= SMALL_BLOCK_SIZE
    ensures MappingInsert(size + u - 1).Index() >= 0
    ensures size <= ClassMin(MappingInsert(size + u - 1).Index())
  {
    if size + u - 1 < 64 * u { RoundedWithin(size, f, u); } else { RoundedBeyond(size, f, u); }
  }

  lemma RoundingIsSmall(size: nat)
    requires size > 0
    ensures 32 * (RoundUp(size) - size) < size
  {
    if size >= SMALL_BLOCK_SIZE {
      FlsLarge(size);
      LargeBounds(size, Fls(size), Pow2(Fls(size) - 5));
    }
  }

  lemma LargeBounds(size: nat, f: nat, u: nat)
    requires size >= SMALL_BLOCK_SIZE && f >= 8 && f == Fls(size) && u == Pow2(f - 5)
    ensures 32 * u <= size < 64 * u && RoundUp(size) == size + u - 1
  {
    FlsBounds(size);
    Pow5(f - 5);
  }

  lemma RoundedWithin(size: nat, f: nat, u: nat)
    requires f >= 8 && u == Pow2(f - 5) && 32 * u <= size <= size + u - 1 < 64 * u
    requires size >= SMALL_BLOCK_SIZE
    ensures MappingInsert(size + u - 1).Index() >= 0
    ensures size <= ClassMin(MappingInsert(size + u - 1).Index())
  {
    var q := LargeClass(size + u - 1, f, u);
    NextClassMin((f - 7) * 32 + (q - 32), f, u, q);
  }

  lemma RoundedBeyond(size: nat, f: nat, u: nat)
    requires f >= 8 && u == Pow2(f - 5) && 32 * u <= size < 64 * u <= size + u - 1
    requires size >= SMALL_BLOCK_SIZE
    ensures MappingInsert(size + u - 1).Index() >= 0
    ensures size <= ClassMin(MappingInsert(size + u - 1).Index())
  {
    var q := LargeClass(size + u - 1, f + 1, 2 * u);
    NextClassMin((f - 6) * 32 + (q - 32), f + 1, 2 * u, q);
    MulMonotone(32, q, 2 * u);
  }
}
