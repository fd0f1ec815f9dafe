/** Machine-word bit operations on natural numbers, defined bit by bit. */
module Bits {

  function Pow2(k: nat): (r: nat)
    ensures r > 0
  {
    if k == 0 then 1 else 2 * Pow2(k - 1)
  }

  function Xor(a: nat, b: nat): nat {
    if a == 0 && b == 0 then 0 else 2 * Xor(a / 2, b / 2) + (a % 2 + b % 2) % 2
  }

  /** Number of trailing zero bits. */
  function Ctz(n: nat): nat
    requires n > 0
  {
    if n % 2 == 1 then 0 else 1 + Ctz(n / 2)
  }

  lemma {:induction false} XorZero(a: nat, b: nat)
    ensures Xor(a, b) == 0 <==> a == b
  {
    if a != 0 || b != 0 { XorZero(a / 2, b / 2); }
  }

  lemma XorDouble(x: nat, e: nat, y: nat, c: nat)
    requires e < 2 && c < 2
    ensures Xor(2 * x + e, 2 * y + c) == 2 * Xor(x, y) + (e + c) % 2
  {
    assert (2 * x + e) / 2 == x && (2 * y + c) / 2 == y;
    assert Xor(0, 0) == 0;
  }

  lemma PowSplit(k: nat, u: nat)
    requires k > 0
    ensures Pow2(k) * u == 2 * (Pow2(k - 1) * u)
  {
    var p := Pow2(k - 1);
    assert (2 * p) * u == 2 * (p * u);
  }

  /** XOR works on the low `k` bits and on the rest separately. */
  lemma {:induction false} XorSplit(k: nat, a: nat, u: nat, b: nat, v: nat)
    requires a < Pow2(k) && b < Pow2(k)
    ensures Pow2(k) * u >= 0 && Pow2(k) * v >= 0
    ensures Xor(a + Pow2(k) * u, b + Pow2(k) * v) == Xor(a, b) + Pow2(k) * Xor(u, v)
    decreases k
  {
    if k > 0 {
      XorSplit(k - 1, a / 2, u, b / 2, v);
      PowSplit(k, u);
      PowSplit(k, v);
      PowSplit(k, Xor(u, v));
      XorDouble(a / 2 + Pow2(k - 1) * u, a % 2, b / 2 + Pow2(k - 1) * v, b % 2);
      XorDouble(a / 2, a % 2, b / 2, b % 2);
    }
  }

  lemma CtzDouble(n: nat)
    requires n > 0
    ensures Ctz(2 * n) == 1 + Ctz(n)
  {
    assert (2 * n) / 2 == n && (2 * n) % 2 == 0;
  }

  lemma {:induction false} CtzShift(k: nat, n: nat)
    requires n > 0
    ensures Pow2(k) * n > 0 && Ctz(Pow2(k) * n) == k + Ctz(n)
    decreases k
  {
    if k > 0 {
      CtzShift(k - 1, n);
      PowSplit(k, n);
      CtzDouble(Pow2(k - 1) * n);
    }
  }

  lemma {:induction false} CtzLow(k: nat, m: nat, n: nat)
    requires 0 < m < Pow2(k)
    ensures m + Pow2(k) * n > 0 && Ctz(m + Pow2(k) * n) < k
    decreases k
  {
    assert Pow2(k) * n >= 0;
    var x := m + Pow2(k) * n;
    if k > 0 {
      var p := Pow2(k - 1);
      assert x == m + 2 * (p * n);
      if m % 2 == 0 {
        CtzLow(k - 1, m / 2, n);
        assert x / 2 == m / 2 + p * n && x % 2 == 0;
      }
    }
  }

  lemma {:induction false} XorBound(k: nat, a: nat, b: nat)
    requires a < Pow2(k) && b < Pow2(k)
    ensures Xor(a, b) < Pow2(k)
    decreases k
  {
    if k > 0 { XorBound(k - 1, a / 2, b / 2); }
  }

  // ---------------------------------------------------------------- single bits

  predicate Bit(n: nat, i: nat) {
    if i == 0 then n % 2 == 1 else Bit(n / 2, i - 1)
  }

  function And(a: nat, b: nat): nat {
    if a == 0 || b == 0 then 0 else 2 * And(a / 2, b / 2) + (if a % 2 + b % 2 == 2 then 1 else 0)
  }

  function Or(a: nat, b: nat): nat {
    if a == 0 && b == 0 then 0 else 2 * Or(a / 2, b / 2) + (if a % 2 + b % 2 == 0 then 0 else 1)
  }

  /** Complement in a word of `w` bits. */
  function Not(w: nat, a: nat): nat
    requires a < Pow2(w)
  {
    Pow2(w) - 1 - a
  }

  lemma {:induction false} BitZero(i: nat)
    ensures !Bit(0, i)
    decreases i
  {
    if i > 0 { BitZero(i - 1); }
  }

  lemma {:induction false} BitAnd(a: nat, b: nat, i: nat)
    ensures Bit(And(a, b), i) <==> Bit(a, i) && Bit(b, i)
    decreases i
  {
    BitZero(i);
    if a > 0 && b > 0 {
      var r := And(a, b);
      assert r % 2 == (a % 2) * (b % 2) && r / 2 == And(a / 2, b / 2);
      if i > 0 { BitAnd(a / 2, b / 2, i - 1); }
    }
  }

  lemma {:induction false} BitOr(a: nat, b: nat, i: nat)
    ensures Bit(Or(a, b), i) <==> Bit(a, i) || Bit(b, i)
    decreases i
  {
    BitZero(i);
    if a > 0 || b > 0 {
      var r := Or(a, b);
      assert r / 2 == Or(a / 2, b / 2);
      if i > 0 { BitOr(a / 2, b / 2, i - 1); }
    }
  }

  lemma {:induction false} BitPow2(k: nat, i: nat)
    ensures Bit(Pow2(k), i) <==> i == k
    decreases k
  {
    if k == 0 {
      if i > 0 { BitZero(i - 1); }
    } else if i > 0 {
      BitPow2(k - 1, i - 1);
    }
  }

  lemma {:induction false} BitNot(w: nat, a: nat, i: nat)
    requires a < Pow2(w)
    ensures Bit(Not(w, a), i) <==> i < w && !Bit(a, i)
    decreases w
  {
    if w == 0 {
      BitZero(i);
    } else {
      var n := Not(w, a);
      assert n / 2 == Not(w - 1, a / 2) && n % 2 == 1 - a % 2;
      if i > 0 { BitNot(w - 1, a / 2, i - 1); }
    }
  }

  lemma {:induction false} BitBelow(k: nat, i: nat)
    ensures Bit(Pow2(k) - 1, i) <==> i < k
    decreases k
  {
    if k == 0 {
      BitZero(i);
    } else if i > 0 {
      BitBelow(k - 1, i - 1);
    }
  }

  lemma {:induction false} BitBound(w: nat, n: nat, i: nat)
    requires n < Pow2(w) && w <= i
    ensures !Bit(n, i)
    decreases w
  {
    if w == 0 { BitZero(i); } else { BitBound(w - 1, n / 2, i - 1); }
  }

  /** A word is 0 exactly when no bit is set. */
  lemma {:induction false} NonZeroBit(n: nat)
    requires n > 0
    ensures Bit(n, Ctz(n)) && forall i :: 0 <= i < Ctz(n) ==> !Bit(n, i)
    decreases n
  {
    if n % 2 == 0 {
      NonZeroBit(n / 2);
      forall i | 0 <= i < Ctz(n) ensures !Bit(n, i) {
        if i > 0 { assert !Bit(n / 2, i - 1); }
      }
    }
  }

  /** Different numbers differ in a bit. */
  lemma {:induction false} DifferingBit(a: nat, b: nat) returns (i: nat)
    requires a != b
    ensures Bit(a, i) != Bit(b, i)
    decreases a + b
  {
    if a % 2 != b % 2 {
      i := 0;
    } else {
      var k := DifferingBit(a / 2, b / 2);
      i := k + 1;
    }
  }

  lemma {:induction false} AndBound(w: nat, a: nat, b: nat)
    requires a < Pow2(w)
    ensures And(a, b) < Pow2(w)
    decreases w
  {
    if w > 0 && a > 0 && b > 0 { AndBound(w - 1, a / 2, b / 2); }
  }

  lemma {:induction false} OrBound(w: nat, a: nat, b: nat)
    requires a < Pow2(w) && b < Pow2(w)
    ensures Or(a, b) < Pow2(w)
    decreases w
  {
    if w > 0 && (a > 0 || b > 0) { OrBound(w - 1, a / 2, b / 2); }
  }

  lemma {:induction false} Pow2Monotone(a: nat, b: nat)
    requires a <= b
    ensures Pow2(a) <= Pow2(b) && (a < b ==> 2 * Pow2(a) <= Pow2(b))
    decreases b
  {
    if a < b { Pow2Monotone(a, b - 1); }
  }

  /** Clearing the low `k` bits of a word rounds down to a multiple of Pow2(k). */
  lemma {:induction false} AndMask(w: nat, k: nat, n: nat)
    requires k <= w && n < Pow2(w)
    ensures Pow2(k) <= Pow2(w)
    ensures And(n, Not(w, Pow2(k) - 1)) == n - n % Pow2(k)
    decreases w
  {
    Pow2Monotone(k, w);
    var m := Not(w, Pow2(k) - 1);
    if k == 0 {
      AndOnes(w, n);
    } else {
      AndMask(w - 1, k - 1, n / 2);
      assert m / 2 == Not(w - 1, Pow2(k - 1) - 1) && m % 2 == 0;
      ModHalf(n, Pow2(k - 1));
      AndEven(n, m);
    }
  }

  lemma AndEven(a: nat, b: nat)
    requires b % 2 == 0
    ensures And(a, b) == 2 * And(a / 2, b / 2)
  {
  }

  lemma {:induction false} AndOnes(w: nat, n: nat)
    requires n < Pow2(w)
    ensures And(n, Pow2(w) - 1) == n
    decreases w
  {
    if w > 0 && n > 0 {
      AndOnes(w - 1, n / 2);
      assert (Pow2(w) - 1) / 2 == Pow2(w - 1) - 1 && (Pow2(w) - 1) % 2 == 1;
    }
  }

  lemma ModHalf(n: nat, p: nat)
    requires p > 0
    ensures n % (2 * p) == 2 * ((n / 2) % p) + n % 2
  {
    var q, r := (n / 2) / p, (n / 2) % p;
    assert n / 2 == q * p + r;
    assert n == q * (2 * p) + (2 * r + n % 2);
    assert 0 <= 2 * r + n % 2 < 2 * p;
    ModUnique(n, 2 * p, q, 2 * r + n % 2);
  }

  lemma ModUnique(n: nat, d: nat, q: nat, r: nat)
    requires d > 0 && r < d && n == q * d + r
    ensures n % d == r && n / d == q
  {
    var q', r' := n / d, n % d;
    var x: int := q' - q;
    assert n == q' * d + r';
    Distribute(q', q, d);
    if x > 0 { AtLeast(x, d); } else if x < 0 { Distribute(q, q', d); AtLeast(-x, d); }
  }

  lemma Distribute(a: int, b: int, d: int)
    ensures (a - b) * d == a * d - b * d
  {
  }

  lemma AtLeast(x: int, d: int)
    requires x > 0 && d > 0
    ensures x * d >= d
  {
  }

  /** Index of the highest bit set, or -1. */
  function Fls(n: nat): (r: int)
    ensures n == 0 <==> r == -1
    ensures r >= -1
  {
    if n == 0 then -1 else 1 + Fls(n / 2)
  }

  lemma {:induction false} FlsBounds(n: nat)
    requires n > 0
    ensures Pow2(Fls(n)) <= n < 2 * Pow2(Fls(n))
    decreases n
  {
    if n > 1 { FlsBounds(n / 2); }
  }

  lemma {:induction false} FlsUnique(n: nat, k: nat)
    requires Pow2(k) <= n < 2 * Pow2(k)
    ensures Fls(n) == k
    decreases k
  {
    if k > 0 { FlsUnique(n / 2, k - 1); }
  }

  function Shr(n: nat, k: nat): nat
    decreases k
  {
    if k == 0 then n else Shr(n / 2, k - 1)
  }

  lemma {:induction false} ShrBounds(n: nat, k: nat)
    ensures Shr(n, k) * Pow2(k) <= n < Shr(n, k) * Pow2(k) + Pow2(k)
    decreases k
  {
    if k > 0 {
      ShrBounds(n / 2, k - 1);
      TwiceAsWide(n, Shr(n / 2, k - 1), Pow2(k - 1));
    }
  }

  lemma TwiceAsWide(n: nat, q: nat, p: nat)
    requires q * p <= n / 2 < q * p + p
    ensures q * (2 * p) <= n < q * (2 * p) + 2 * p
  {
    var x := q * p;
    assert q * (2 * p) == 2 * x;
  }
}
