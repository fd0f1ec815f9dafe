/** The bit searches of src/tlsf.c in their generic form, by shift and test. */
module TlsfBits {
  import opened Bits
  import opened TlsfMapping

  /** unsigned int and size_t. */
  const WORD_BITS := 32
  const WORD_LIMIT := 0x1_0000_0000

  /** A mask of the top `k` bits of a word. */
  function TopBits(k: nat): nat
    requires k <= WORD_BITS
  {
    Pow2Monotone(WORD_BITS - k, WORD_BITS);
    Not(WORD_BITS, Pow2(WORD_BITS - k) - 1)
  }

  /** A word has none of its top `k` bits exactly if it is below Pow2(32 - k). */
  lemma TopBitsClear(w: nat, k: nat)
    requires w < WORD_LIMIT && k <= WORD_BITS
    ensures And(w, TopBits(k)) == 0 <==> w < Pow2(WORD_BITS - k)
  {
    Pow64();
    var p := Pow2(WORD_BITS - k);
    AndMask(WORD_BITS, WORD_BITS - k, w);
    Pow2Monotone(0, WORD_BITS - k);
    if w < p { ModUnique(w, p, 0, w); }
  }

  lemma {:induction false} ShiftedFls(w: nat, k: nat)
    requires w > 0
    ensures w * Pow2(k) > 0 && Fls(w * Pow2(k)) == Fls(w) + k
    decreases k
  {
    if k > 0 {
      ShiftedFls(w, k - 1);
      PowSplit(k, w);
      var x := w * Pow2(k - 1);
      assert Pow2(k) * w == w * Pow2(k) && (2 * x) / 2 == x;
    }
  }

  /** The last bit of a word is at `f` or above exactly if the word is not below Pow2(f). */
  lemma FlsAtLeast(w: nat, f: nat)
    ensures Fls(w) >= f <==> w >= Pow2(f)
  {
    if w > 0 {
      FlsBounds(w);
      if Fls(w) < f { Pow2Monotone(Fls(w) + 1, f); } else { Pow2Monotone(f, Fls(w)); }
    } else {
      Pow2Monotone(0, f);
    }
  }

  /** One test: if the top `k` bits are clear, shift them in from below. */
  method ShiftUp(word: nat, bit: int, k: nat) returns (word': nat, bit': int)
    requires word < WORD_LIMIT && 0 < k <= 16 && (word > 0 ==> Fls(word) >= WORD_BITS - 2 * k)
    ensures word' < WORD_LIMIT
    ensures word == 0 ==> word' == 0 && bit' == bit - k
    ensures word > 0 ==> word' > 0 && Fls(word') + bit' == Fls(word) + bit && Fls(word') >= WORD_BITS - k
  {
    word', bit' := word, bit;
    TopBitsClear(word, k);
    FlsAtLeast(word, WORD_BITS - k);
    if And(word, TopBits(k)) == 0 {
      if word > 0 { ShiftedFls(word, k); }
      ShiftFits(word, k);
      word' := (word * Pow2(k)) % WORD_LIMIT;
      bit' := bit - k;
    } else {
      Pow2Monotone(0, WORD_BITS - k);
    }
  }

  /** Nothing is shifted out. */
  lemma ShiftFits(w: nat, k: nat)
    requires k <= WORD_BITS && w < Pow2(WORD_BITS - k)
    ensures (w * Pow2(k)) % WORD_LIMIT == w * Pow2(k) < WORD_LIMIT
  {
    if w > 0 {
      Pow64();
      ShiftedFls(w, k);
      FlsAtLeast(w, WORD_BITS - k);
      FlsAtLeast(w * Pow2(k), WORD_BITS);
    }
  }

  /** tlsf_fls_generic: one more than the position of the last set bit. */
  method FlsGeneric(word0: nat) returns (bit: int)
    requires word0 < WORD_LIMIT
    ensures bit == Fls(word0) + 1
  {
    Pow64();
    var word := word0;
    bit := WORD_BITS;
    FlsAtLeast(word0, WORD_BITS);
    if word == 0 { bit := bit - 1; }
    word, bit := ShiftUp(word, bit, 16);
    word, bit := ShiftUp(word, bit, 8);
    word, bit := ShiftUp(word, bit, 4);
    word, bit := ShiftUp(word, bit, 2);
    word, bit := ShiftUp(word, bit, 1);
    FlsAtLeast(word, WORD_BITS);
  }

  method TlsfFls(word: nat) returns (bit: int)
    requires word < WORD_LIMIT
    ensures bit == Fls(word)
  {
    bit := FlsGeneric(word);
    bit := bit - 1;
  }

  /** A word and its complement have no bit in common. */
  lemma {:induction false} AndComplement(n: nat, q: nat)
    requires q < Pow2(n)
    ensures And(q, Pow2(n) - 1 - q) == 0
    decreases n
  {
    if n > 0 && q > 0 {
      AndComplement(n - 1, q / 2);
      assert (Pow2(n) - 1 - q) / 2 == Pow2(n - 1) - 1 - q / 2;
    }
  }

  /** A word and its two's complement have the lowest set bit in common, and no other. */
  lemma {:induction false} LowestBitOnly(n: nat, w: nat)
    requires 0 < w < Pow2(n)
    ensures And(w, Pow2(n) - w) == Pow2(Ctz(w))
    decreases n
  {
    var q := w / 2;
    if w % 2 == 1 {
      AndComplement(n - 1, q);
      assert (Pow2(n) - w) / 2 == Pow2(n - 1) - 1 - q && (Pow2(n) - w) % 2 == 1;
    } else {
      LowestBitOnly(n - 1, q);
      assert (Pow2(n) - w) / 2 == Pow2(n - 1) - q && (Pow2(n) - w) % 2 == 0;
    }
  }

  /** tlsf_ffs: the position of the first set bit, -1 if there is none. */
  method TlsfFfs(word: nat) returns (bit: int)
    requires word < WORD_LIMIT
    ensures bit == if word == 0 then -1 else Ctz(word)
  {
    Pow64();
    var negated := (WORD_LIMIT - 1 - word + 1) % WORD_LIMIT;
    if word > 0 {
      LowestBitOnly(WORD_BITS, word);
      FlsUnique(Pow2(Ctz(word)), Ctz(word));
      AndBound(WORD_BITS, word, negated);
    }
    bit := FlsGeneric(And(word, negated));
    bit := bit - 1;
  }

  /** The last bit of a long word by its halves. */
  lemma FlsOfHalves(size: nat)
    requires WORD_LIMIT <= size
    ensures Fls(size) == 32 + Fls(size / WORD_LIMIT)
  {
    var high := size / WORD_LIMIT;
    FlsBounds(high);
    Pow64();
    HalfBounds(high, size, Fls(high));
  }

  lemma HalfBounds(high: nat, size: nat, f: nat)
    requires high == size / WORD_LIMIT && Pow2(f) <= high < 2 * Pow2(f)
    ensures Fls(size) == 32 + f
  {
    Pow64();
    ShiftedFls(Pow2(f), 32);
    FlsUnique(Pow2(f), f);
    var x := Pow2(f) * Pow2(32);
    FlsBounds(x);
    Shifted(f, 32);
    FlsUnique(size, 32 + f);
  }

  lemma {:induction false} Shifted(f: nat, k: nat)
    ensures Pow2(f) * Pow2(k) == Pow2(k + f)
    decreases k
  {
    if k > 0 {
      Shifted(f, k - 1);
      PowSplit(k, Pow2(f));
    }
  }

  /** tlsf_fls_sizet. */
  method FlsSizeT(size: nat) returns (bits: int)
    requires size < SIZE_T
    ensures bits == Fls(size)
  {
    var high := size / WORD_LIMIT;
    if high != 0 {
      FlsOfHalves(size);
      bits := TlsfFls(high);
      bits := 32 + bits;
    } else {
      bits := TlsfFls(size % WORD_LIMIT);
    }
  }
}
