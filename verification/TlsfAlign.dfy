/** The gap arithmetic of tlsf_memalign. */
module TlsfAlign {
  import opened Bits
  import opened TlsfMapping

  /** User-mode addresses are below this. */
  const ADDRESS_LIMIT := 0x8000_0000_0000

  const GAP_MINIMUM := HEADER_SIZE

  /** The largest power of two a size_t holds. */
  const ALIGN_MAX := SIZE_T / 2

  function SizeWithGap(adjust: nat, align: nat): nat
    requires align > 0
  {
    AdjustRequestSize(adjust + align + GAP_MINIMUM, align)
  }

  /** Bytes between the payload address `a` of a block and the aligned address that is returned. */
  function Gap(a: nat, align: nat): int
    requires align > 0
  {
    var aligned := AlignUp(a, align);
    var gap := aligned - a;
    if 0 < gap < GAP_MINIMUM then
      var gapRemain := GAP_MINIMUM - gap;
      var offset := if gapRemain < align then align else gapRemain;
      AlignUp(aligned + offset, align) - a
    else gap
  }

  lemma AlignUpExact(x: nat, align: nat)
    requires align > 0 && x + (align - 1) < SIZE_T
    ensures AlignUp(x, align) % align == 0 && x <= AlignUp(x, align) < x + align
    ensures x % align == 0 ==> AlignUp(x, align) == x
  {
    AlignDownIsLargest(x + (align - 1), align);
    if x % align == 0 { ModUnique(x + (align - 1), align, x / align, align - 1); }
  }

  lemma MultipleOfPart(x: nat, part: nat, q: nat)
    requires part > 0 && q > 0 && x % (part * q) == 0
    ensures x % part == 0
  {
    var t := x / (part * q);
    assert x == part * q * t == part * (q * t);
    ModUnique(x, part, q * t, 0);
  }

  lemma NextMultiple(x: nat, align: nat)
    requires align > 0 && x % align == 0
    ensures (x + align) % align == 0
  {
    ModUnique(x + align, align, x / align + 1, 0);
  }

  /** The alignments: at most 8, 16, a multiple of 32. */
  lemma Alignments(k: nat) returns (q: nat)
    requires k < 64
    ensures Pow2(k) <= ALIGN_MAX && (k < 63 ==> Pow2(k) <= ALIGN_MAX / 2) && (k == 63 ==> Pow2(k) == ALIGN_MAX)
    ensures k <= 3 ==> Pow2(k) <= 8 && q > 0 && 8 == Pow2(k) * q
    ensures k == 4 ==> Pow2(k) == 16
    ensures k > 4 ==> q > 0 && Pow2(k) == 32 * q
  {
    Pow64();
    assert Pow2(64) == 2 * Pow2(63) && Pow2(63) == 2 * Pow2(62);
    if k < 63 { Pow2Monotone(k, 62); }
    if k > 4 {
      Pow5(k - 5);
      q := Pow2(k - 5);
      Pow2Monotone(0, k - 5);
    } else {
      q := if k == 0 then 8 else if k == 1 then 4 else if k == 2 then 2 else 1;
      SmallPowers();
    }
  }

  lemma SmallPowers()
    ensures Pow2(0) == 1 && Pow2(1) == 2 && Pow2(2) == 4 && Pow2(3) == 8 && Pow2(4) == 16
  {
  }

  /** What the gap is for a payload address: the result is aligned, and a gap is wide enough for a block
      of its own yet never wider than the reserve made for it. */
  lemma GapFits(a: nat, k: nat)
    requires k < 64 && a % 8 == 0 && 0 < a < ADDRESS_LIMIT
    ensures Pow2(k) > 0 && GapIsFit(a, Pow2(k), Gap(a, Pow2(k)))
  {
    var q := Alignments(k);
    if k <= 3 {
      GapFits8(a, Pow2(k), q);
    } else if k == 4 {
      GapFits16(a, Pow2(k));
    } else {
      GapFits32(a, Pow2(k), q);
    }
  }

  predicate GapIsFit(a: nat, align: nat, gap: int)
    requires align > 0
  {
    && (a + gap) % align == 0 && gap % 8 == 0
    && (align <= 8 ==> gap == 0)
    && (gap == 0 || GAP_MINIMUM <= gap <= align + 24)
    && (align == ALIGN_MAX ==> gap >= BLOCK_SIZE_MAX)
  }

  lemma GapFits8(a: nat, align: nat, q: nat)
    requires align > 0 && q > 0 && 8 == align * q && align <= 8 && a % 8 == 0 && 0 < a < ADDRESS_LIMIT
    ensures GapIsFit(a, align, Gap(a, align))
  {
    MultipleOfPart(a, align, q);
    AlignUpExact(a, align);
  }

  lemma GapFits16(a: nat, align: nat)
    requires a % 8 == 0 && 0 < a < ADDRESS_LIMIT && align == 16
    ensures GapIsFit(a, align, Gap(a, align))
  {
    var x := AlignUp(a, align);
    var y := AlignUp(x + 24, align);
    SixteenBounds(a, align, x, y);
    Sixteens(a, x, y);
    GapFrom(a, align, x, y);
  }

  lemma SixteenBounds(a: nat, align: nat, x: nat, y: nat)
    requires 0 < a < ADDRESS_LIMIT && 0 < align <= 16 && x == AlignUp(a, align) && y == AlignUp(x + 24, align)
    ensures x % align == 0 && y % align == 0 && a <= x < a + align && x + 24 <= y < x + 24 + align
  {
    AlignUpExact(a, align);
    AlignUpExact(x + 24, align);
  }

  lemma Sixteens(a: nat, x: nat, y: nat)
    requires a % 8 == 0 && x % 16 == 0 && y % 16 == 0 && a <= x < a + 16 && x + 24 <= y < x + 40
    ensures x == a || (x == a + 8 && y == a + 40)
  {
  }

  lemma GapFrom(a: nat, align: nat, x: nat, y: nat)
    requires 16 <= align <= 24 && x == AlignUp(a, align) && y == AlignUp(x + 24, align)
    requires x % align == 0 && y % align == 0 && (x == a || (x == a + 8 && y == a + 40))
    ensures GapIsFit(a, align, Gap(a, align))
  {
    assert Gap(a, align) == if x == a then 0 else 40;
  }

  lemma FirstAligned(a: nat, align: nat, q: nat) returns (x: nat)
    requires q > 0 && align == 8 * q && align <= ALIGN_MAX && 0 < a < ADDRESS_LIMIT
    ensures x == AlignUp(a, align) && x % align == 0 && x % 8 == 0 && a <= x < a + align && align <= x
  {
    AlignUpExact(a, align);
    x := AlignUp(a, align);
    MultipleOfPart(x, 8, q);
    if x < align { ModUnique(x, align, 0, x); }
  }

  lemma SecondAligned(x: nat, align: nat, q: nat)
    requires q > 0 && align == 8 * q && x % align == 0 && x + 2 * align < SIZE_T
    ensures AlignUp(x + align, align) == x + align && (x + align) % align == 0 && (x + align) % 8 == 0
  {
    NextMultiple(x, align);
    AlignUpExact(x + align, align);
    MultipleOfPart(x + align, 8, q);
  }

  lemma GapFits32(a: nat, align: nat, q: nat)
    requires q > 0 && align == 32 * q && align <= ALIGN_MAX && a % 8 == 0 && 0 < a < ADDRESS_LIMIT
    ensures GapIsFit(a, align, Gap(a, align))
  {
    var x := FirstAligned(a, align, 4 * q);
    var y := x;
    if 0 < x - a < GAP_MINIMUM {
      SecondAligned(x, align, 4 * q);
      y := x + align;
    }
    GapTo(a, align, x, y);
    if align == ALIGN_MAX { TopGap(a); }
  }

  lemma GapTo(a: nat, align: nat, x: nat, y: nat)
    requires 32 <= align && x == AlignUp(a, align) && a % 8 == 0 && a <= x < a + align
    requires x % 8 == 0 && y % 8 == 0 && y % align == 0
    requires if 0 < x - a < GAP_MINIMUM then y == x + align && AlignUp(y, align) == y else y == x
    ensures var gap := Gap(a, align); (a + gap) % align == 0 && gap % 8 == 0 && (gap == 0 || 32 <= gap <= align + 24)
  {
    assert Gap(a, align) == y - a;
    EightApart(a, x);
    EightApart(a, y);
  }

  lemma EightApart(a: nat, x: nat)
    requires a % 8 == 0 && x % 8 == 0 && a <= x
    ensures (x - a) % 8 == 0 && (0 < x - a < 32 ==> x - a <= 24)
  {
  }

  lemma TopGap(a: nat)
    requires 0 < a < ADDRESS_LIMIT
    ensures Gap(a, ALIGN_MAX) >= BLOCK_SIZE_MAX
  {
    var x := FirstAligned(a, ALIGN_MAX, ALIGN_MAX / 8);
  }

  lemma MultiplesApart(x: nat, z: nat, align: nat)
    requires align > 0 && x % align == 0 && z % align == 0 && x < z
    ensures x + align <= z
  {
    ModUnique(x + align, align, x / align + 1, 0);
    if z < x + align { ModUnique(z, align, x / align, z - x); }
  }

  lemma LeastGap16(a: nat, align: nat, g: nat, x: nat)
    requires align == 16 && a % 8 == 0 && 0 < a < ADDRESS_LIMIT && x == AlignUp(a, align) && x <= a + g
    requires g < Gap(a, align) && (a + g) % align == 0
    ensures 0 < g < GAP_MINIMUM
  {
    var y := AlignUp(x + 24, align);
    SixteenBounds(a, align, x, y);
    Sixteens(a, x, y);
    GapFrom(a, align, x, y);
    assert Gap(a, align) == if x == a then 0 else 40;
    SixteenApart(a, g);
  }

  lemma SixteenApart(a: nat, g: nat)
    requires a % 8 == 0 && (a + g) % 16 == 0 && g < 40
    ensures g <= 32 && (a % 16 != 0 ==> g == 8 || g == 24)
  {
  }

  lemma LeastGap32(a: nat, align: nat, q: nat, g: nat, x: nat)
    requires q > 0 && align == 32 * q && align <= ALIGN_MAX && a % 8 == 0 && 0 < a < ADDRESS_LIMIT
    requires x == AlignUp(a, align) && x % align == 0 && a <= x < a + align && x <= a + g
    requires g < Gap(a, align) && (a + g) % align == 0
    ensures 0 < g < GAP_MINIMUM
  {
    if 0 < x - a < GAP_MINIMUM {
      var x' := FirstAligned(a, align, 4 * q);
      SecondAligned(x, align, 4 * q);
      assert Gap(a, align) == x + align - a;
      if x < a + g { MultiplesApart(x, a + g, align); }
    }
  }

  /** No smaller gap will do: it would not align, or be too narrow for a block. */
  lemma GapIsLeast(a: nat, k: nat, g: nat)
    requires k < 64 && a % 8 == 0 && 0 < a < ADDRESS_LIMIT && 0 < Pow2(k)
    requires g < Gap(a, Pow2(k)) && (a + g) % Pow2(k) == 0
    ensures 0 < g < GAP_MINIMUM
  {
    var align := Pow2(k);
    var q := Alignments(k);
    AlignUpExact(a, align);
    var x := AlignUp(a, align);
    assert x <= a + g by { if a + g < x { MultiplesApart(a + g, x, align); } }
    if k <= 3 {
      GapFits8(a, align, q);
    } else if k == 4 {
      LeastGap16(a, align, g, x);
    } else {
      LeastGap32(a, align, q, g, x);
    }
  }

  /** The over-allocation covers the reserve exactly when the sum does not wrap around: for the largest
      power of two the request collapses to the smallest block. */
  lemma ReserveCovers(adjust: nat, k: nat)
    requires BLOCK_SIZE_MIN <= adjust < BLOCK_SIZE_MAX && adjust % 8 == 0 && 4 <= k < 64
    ensures var align, total := Pow2(k), SizeWithGap(adjust, Pow2(k));
      && total % 8 == 0 && total < BLOCK_SIZE_MAX
      && (total == 0 || adjust + align + GAP_MINIMUM <= total <==> align < ALIGN_MAX)
  {
    var q := Alignments(k);
    ReserveOf(adjust, Pow2(k), if k == 4 then 2 else 4 * q);
  }

  lemma ReserveOf(adjust: nat, align: nat, q: nat)
    requires BLOCK_SIZE_MIN <= adjust < BLOCK_SIZE_MAX && q > 0 && align == 8 * q
    requires align <= ALIGN_MAX && (align < ALIGN_MAX ==> align <= ALIGN_MAX / 2)
    ensures var total := SizeWithGap(adjust, align);
      && total % 8 == 0 && total < BLOCK_SIZE_MAX
      && (total == 0 || adjust + align + GAP_MINIMUM <= total <==> align < ALIGN_MAX)
  {
    AdjustMeetsRequest(adjust + align + GAP_MINIMUM, align);
    TotalIsMultiple(adjust + align + GAP_MINIMUM, align, q);
  }

  /** It is no more than it has to be: the gap and the rounding, and a request is refused for it only if they
      bring it to the limit. */
  lemma ReserveIsSmall(adjust: nat, k: nat)
    requires BLOCK_SIZE_MIN <= adjust < BLOCK_SIZE_MAX && adjust % 8 == 0 && k < 64 && Pow2(k) < ALIGN_MAX
    ensures 0 < Pow2(k)
    ensures k <= 3 ==> AlignedSize(adjust, Pow2(k)) == adjust
    ensures 3 < k ==> AlignedSize(adjust, Pow2(k)) < adjust + 2 * Pow2(k) + GAP_MINIMUM
    ensures 3 < k && AlignedSize(adjust, Pow2(k)) == 0 ==> BLOCK_SIZE_MAX < adjust + 2 * Pow2(k) + GAP_MINIMUM
  {
    var q := Alignments(k);
    if 3 < k { ReserveOfIsSmall(adjust, Pow2(k)); } else { SmallPowers(); }
  }

  lemma ReserveOfIsSmall(adjust: nat, align: nat)
    requires BLOCK_SIZE_MIN <= adjust < BLOCK_SIZE_MAX && ALIGN_SIZE < align <= ALIGN_MAX / 2
    ensures AlignedSize(adjust, align) < adjust + 2 * align + GAP_MINIMUM
    ensures AlignedSize(adjust, align) == 0 ==> BLOCK_SIZE_MAX < adjust + 2 * align + GAP_MINIMUM
  {
    AlignUpExact(adjust + align + GAP_MINIMUM, align);
  }

  lemma TotalIsMultiple(size: nat, align: nat, q: nat)
    requires q > 0 && align == 8 * q
    ensures AdjustRequestSize(size, align) % 8 == 0 && AdjustRequestSize(size, align) < BLOCK_SIZE_MAX
  {
    AlignDownIsLargest((size + (align - 1)) % SIZE_T, align);
    MultipleOfPart(AlignUp(size, align), 8, q);
  }

  /** The size that tlsf_memalign looks for. */
  function AlignedSize(adjust: nat, align: nat): nat
    requires align > 0
  {
    if adjust > 0 && align > ALIGN_SIZE then SizeWithGap(adjust, align) else adjust
  }

  lemma AlignedSizeFits(adjust: nat, k: nat)
    requires adjust == 0 || (BLOCK_SIZE_MIN <= adjust < BLOCK_SIZE_MAX && adjust % 8 == 0)
    requires k < 64
    ensures 0 < Pow2(k) && AlignedSize(adjust, Pow2(k)) % 8 == 0
    ensures AlignedSize(adjust, Pow2(k)) > 0 ==> adjust > 0 && Reserved(adjust, AlignedSize(adjust, Pow2(k)), k)
  {
    var q := Alignments(k);
    if k <= 3 { SmallPowers(); }
    if adjust > 0 && 3 < k { ReserveCovers(adjust, k); }
  }

  /** A block of `size` bytes has room for `adjust` bytes at the alignment Pow2(k), wherever it starts. */
  predicate Reserved(adjust: nat, size: nat, k: nat) {
    && (k <= 3 ==> adjust <= size)
    && (3 < k && Pow2(k) < ALIGN_MAX ==> adjust + Pow2(k) + GAP_MINIMUM <= size)
  }

  /** With the reserve a gap can always be split off and leaves enough; without it, at the largest power
      of two, it never can. */
  lemma GapWithin(a: nat, size: nat, adjust: nat, k: nat)
    requires a % 8 == 0 && 0 < a < ADDRESS_LIMIT && k < 64 && size < BLOCK_SIZE_MAX
    requires BLOCK_SIZE_MIN <= adjust && Reserved(adjust, size, k)
    ensures var gap := Gap(a, Pow2(k));
      && gap % 8 == 0 && (gap == 0 || 32 <= gap) && (a + gap) % Pow2(k) == 0
      && (Pow2(k) < ALIGN_MAX ==> adjust + gap <= size && (gap > 0 ==> 32 + gap <= size))
      && (Pow2(k) == ALIGN_MAX ==> gap > 0 && 32 + gap > size)
    ensures 0 < Pow2(k) <= ALIGN_MAX
  {
    GapFits(a, k);
    var q := Alignments(k);
    if k <= 3 { SmallPowers(); }
  }

  /** The same in words, for a block at `b` with `n` payload words; `p` is what comes of it. */
  lemma GapWords(b: nat, n: nat, words: nat, k: nat) returns (j: nat, p: nat)
    requires 8 * (b + 2) < ADDRESS_LIMIT && k < 64 && 8 * n < BLOCK_SIZE_MAX
    requires 3 <= words && Reserved(8 * words, 8 * n, k)
    ensures 0 < Pow2(k) <= ALIGN_MAX && Gap(8 * (b + 2), Pow2(k)) == 8 * j && (j == 0 || 4 <= j)
    ensures p == b + 2 + (if j == 0 || n >= j + 4 then j else 0)
    ensures (8 * p) % Pow2(k) == 0 <==> Pow2(k) < ALIGN_MAX
    ensures Pow2(k) < ALIGN_MAX ==> words + j <= n && (j == 0 || n >= j + 4)
  {
    GapWithin(8 * (b + 2), 8 * n, 8 * words, k);
    j := Gap(8 * (b + 2), Pow2(k)) / 8;
    p := b + 2 + (if j == 0 || n >= j + 4 then j else 0);
    if Pow2(k) == ALIGN_MAX {
      NotAligned(8 * p);
    } else {
      assert 8 * p == 8 * (b + 2) + Gap(8 * (b + 2), Pow2(k));
    }
  }

  lemma NotAligned(a: nat)
    requires 0 < a < ADDRESS_LIMIT
    ensures a % ALIGN_MAX != 0
  {
    ModUnique(a, ALIGN_MAX, 0, a);
  }
}
