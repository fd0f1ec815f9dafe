/** Match length counting: whole words are compared by XOR, and the first differing byte is found
    from the trailing zeros of the difference. */
module Lz4Count {
  import opened Bits
  import opened Lz4Format

  const STEPSIZE := 8

  /** The value of a little-endian word. */
  function Le(s: seq<byte>): nat {
    if s == [] then 0 else (s[0] as int) + 256 * Le(s[1..])
  }

  function NbCommonBytes(diff: nat): nat
    requires diff > 0
  {
    Ctz(diff) / 8
  }

  /** Length of the longest common prefix of what stands at `i` and at `j`, cut at `limit`. */
  predicate IsCommonLength(src: seq<byte>, i: nat, j: nat, limit: nat, n: nat) {
    && i + n <= limit <= |src| && j + limit - i <= |src|
    && src[i..i + n] == src[j..j + n]
    && (i + n < limit ==> src[i + n] != src[j + n])
  }

  /** That length, a byte at a time. */
  function CommonLength(src: seq<byte>, i: nat, j: nat, limit: nat): (n: nat)
    requires i <= limit <= |src| && j + (limit - i) <= |src|
    ensures i + n <= limit
    decreases limit - i
  {
    if i == limit || src[i] != src[j] then 0 else 1 + CommonLength(src, i + 1, j + 1, limit)
  }

  lemma {:induction false} CommonLengthIs(src: seq<byte>, i: nat, j: nat, limit: nat, n: nat)
    requires i <= limit <= |src| && j + (limit - i) <= |src|
    ensures IsCommonLength(src, i, j, limit, n) <==> n == CommonLength(src, i, j, limit)
    decreases limit - i
  {
    if i < limit && src[i] == src[j] {
      if n > 0 {
        CommonLengthIs(src, i + 1, j + 1, limit, n - 1);
        if i + n <= limit {
          var a, b := src[i..i + n], src[j..j + n];
          assert src[i + 1..i + n] == a[1..] && src[j + 1..j + n] == b[1..];
          assert a == [src[i]] + a[1..] && b == [src[j]] + b[1..];
        }
      }
    } else if n > 0 && i + n <= limit {
      assert src[i..i + n][0] == src[i] && src[j..j + n][0] == src[j];
    }
  }

  lemma {:induction false} DiffZero(a: seq<byte>, b: seq<byte>)
    requires |a| == |b|
    ensures Xor(Le(a), Le(b)) == 0 <==> a == b
  {
    XorZero(Le(a), Le(b));
    if a != [] {
      LeInjective(a, b);
    }
  }

  lemma {:induction false} LeInjective(a: seq<byte>, b: seq<byte>)
    requires |a| == |b|
    ensures Le(a) == Le(b) ==> a == b
    decreases |a|
  {
    if a != [] && Le(a) == Le(b) {
      assert Le(a) % 256 == a[0] && Le(b) % 256 == b[0];
      LeInjective(a[1..], b[1..]);
      assert a == [a[0]] + a[1..] && b == [b[0]] + b[1..];
    }
  }

  lemma ByteDifference(a: byte, u: nat, b: byte, v: nat)
    ensures a != b ==> Xor(a + 256 * u, b + 256 * v) > 0 && NbCommonBytes(Xor(a + 256 * u, b + 256 * v)) == 0
    ensures a == b ==> Xor(a + 256 * u, b + 256 * v) == 256 * Xor(u, v)
    ensures a == b && Xor(u, v) > 0 ==> NbCommonBytes(256 * Xor(u, v)) == NbCommonBytes(Xor(u, v)) + 1
  {
    assert Pow2(8) == 256;
    XorSplit(8, a, u, b, v);
    XorZero(a, b);
    if a != b {
      XorBound(8, a, b);
      CtzLow(8, Xor(a, b), Xor(u, v));
    } else if Xor(u, v) > 0 {
      CtzShift(8, Xor(u, v));
    }
  }

  /** Trailing zeros of the XOR of two words find their first differing byte. */
  lemma {:induction false} FirstDifference(a: seq<byte>, b: seq<byte>)
    requires |a| == |b| && a != b
    ensures Xor(Le(a), Le(b)) > 0
    ensures var k := NbCommonBytes(Xor(Le(a), Le(b)));
      k < |a| && a[..k] == b[..k] && a[k] != b[k]
    decreases |a|
  {
    var u, v := Le(a[1..]), Le(b[1..]);
    ByteDifference(a[0], u, b[0], v);
    if a[0] == b[0] {
      assert a == [a[0]] + a[1..] && b == [b[0]] + b[1..];
      FirstDifference(a[1..], b[1..]);
      var k := NbCommonBytes(Xor(u, v));
      assert a[..k + 1] == [a[0]] + a[1..][..k] && b[..k + 1] == [b[0]] + b[1..][..k];
    }
  }

  /** One comparison of `n`-byte words. */
  method ReadsEqual(src: seq<byte>, i: nat, j: nat, n: nat) returns (equal: bool)
    requires i + n <= |src| && j + n <= |src|
    ensures equal <==> src[i..i + n] == src[j..j + n]
  {
    equal := Le(src[i..i + n]) == Le(src[j..j + n]);
    LeInjective(src[i..i + n], src[j..j + n]);
  }

  /** Compares word by word; `done` when a difference was found, else fewer than STEPSIZE bytes are left. */
  method CountWords(src: seq<byte>, start: nat, match0: nat, limit: nat) returns (n: nat, done: bool)
    requires start <= limit <= |src| && match0 + (limit - start) <= |src|
    ensures start + n <= limit && src[start..start + n] == src[match0..match0 + n]
    ensures if done then IsCommonLength(src, start, match0, limit, n) else limit < start + n + STEPSIZE
  {
    n, done := 0, false;
    while start + n < limit - (STEPSIZE - 1)
      invariant start + n <= limit && src[start..start + n] == src[match0..match0 + n]
    {
      var a, b := src[match0 + n..match0 + n + STEPSIZE], src[start + n..start + n + STEPSIZE];
      var diff := Xor(Le(a), Le(b));
      DiffZero(a, b);
      if diff == 0 {
        Extend(src, start, match0, n, STEPSIZE);
        n := n + STEPSIZE;
      } else {
        FirstDifference(a, b);
        var k := NbCommonBytes(diff);
        WordPrefix(src, start, match0, n, k);
        n, done := n + k, true;
        return;
      }
    }
  }

  lemma WordPrefix(src: seq<byte>, i: nat, j: nat, n: nat, k: nat)
    requires i + n + STEPSIZE <= |src| && j + n + STEPSIZE <= |src| && k < STEPSIZE
    requires src[i..i + n] == src[j..j + n]
    requires var a, b := src[j + n..j + n + STEPSIZE], src[i + n..i + n + STEPSIZE]; a[..k] == b[..k] && a[k] != b[k]
    ensures src[i..i + n + k] == src[j..j + n + k] && src[i + n + k] != src[j + n + k]
  {
    var a, b := src[j + n..j + n + STEPSIZE], src[i + n..i + n + STEPSIZE];
    assert src[i + n..i + n + k] == b[..k] && src[j + n..j + n + k] == a[..k];
    Extend(src, i, j, n, k);
  }

  /** Match length by words, then by 4, 2 and 1 bytes. */
  method Count(src: seq<byte>, start: nat, match0: nat, limit: nat) returns (n: nat)
    requires start <= limit <= |src| && match0 + (limit - start) <= |src|
    ensures IsCommonLength(src, start, match0, limit, n) && n == CommonLength(src, start, match0, limit)
  {
    var done;
    n, done := CountWords(src, start, match0, limit);
    if !done {
      var tail := CountQuad(src, start + n, match0 + n, limit);
      JoinCounts(src, start, match0, limit, n, tail);
      n := n + tail;
    }
    CommonLengthIs(src, start, match0, limit, n);
  }

  method CountQuad(src: seq<byte>, i: nat, j: nat, limit: nat) returns (n: nat)
    requires i <= limit < i + STEPSIZE && limit <= |src| && j + (limit - i) <= |src|
    ensures IsCommonLength(src, i, j, limit, n)
  {
    n := 0;
    if i < limit - 3 {
      var equal := ReadsEqual(src, i, j, 4);
      if equal { n := 4; }
    }
    var tail := CountTail(src, i + n, j + n, limit);
    JoinCounts(src, i, j, limit, n, tail);
    n := n + tail;
  }

  lemma JoinCounts(src: seq<byte>, i: nat, j: nat, limit: nat, n: nat, m: nat)
    requires i + n <= limit <= |src| && j + (limit - i) <= |src|
    requires src[i..i + n] == src[j..j + n]
    requires IsCommonLength(src, i + n, j + n, limit, m)
    ensures IsCommonLength(src, i, j, limit, n + m)
  {
    Extend(src, i, j, n, m);
  }

  /** The two- and one-byte comparisons that close the count. */
  method CountTail(src: seq<byte>, i: nat, j: nat, limit: nat) returns (n: nat)
    requires i <= limit <= |src| && j + (limit - i) <= |src|
    requires limit < i + 4 || src[i..i + 4] != src[j..j + 4]
    ensures IsCommonLength(src, i, j, limit, n)
  {
    n := 0;
    if i < limit - 1 {
      var equal := ReadsEqual(src, i, j, 2);
      TwoBytes(src, i, j);
      if equal { n := 2; }
    }
    if i + n < limit && src[j + n] == src[i + n] {
      Extend(src, i, j, 0, n);
      assert src[i + n..i + n + 1] == [src[i + n]] && src[j + n..j + n + 1] == [src[j + n]];
      Extend(src, i, j, n, 1);
      n := n + 1;
      if n == 3 && i + n < limit { FourthDiffers(src, i, j); }
    }
  }

  lemma TwoBytes(src: seq<byte>, i: nat, j: nat)
    requires i + 2 <= |src| && j + 2 <= |src|
    ensures src[i..i + 2] == src[j..j + 2] <==> src[i] == src[j] && src[i + 1] == src[j + 1]
  {
    assert src[i..i + 2] == [src[i], src[i + 1]] && src[j..j + 2] == [src[j], src[j + 1]];
  }

  lemma FourthDiffers(src: seq<byte>, i: nat, j: nat)
    requires i + 4 <= |src| && j + 4 <= |src|
    requires src[i..i + 3] == src[j..j + 3] && src[i..i + 4] != src[j..j + 4]
    ensures src[i + 3] != src[j + 3]
  {
    assert src[i..i + 4] == src[i..i + 3] + [src[i + 3]] && src[j..j + 4] == src[j..j + 3] + [src[j + 3]];
  }

  lemma Extend(src: seq<byte>, i: nat, j: nat, n: nat, m: nat)
    requires i + n + m <= |src| && j + n + m <= |src|
    requires src[i..i + n] == src[j..j + n] && src[i + n..i + n + m] == src[j + n..j + n + m]
    ensures src[i..i + n + m] == src[j..j + n + m]
  {
    assert src[i..i + n + m] == src[i..i + n] + src[i + n..i + n + m];
    assert src[j..j + n + m] == src[j..j + n] + src[j + n..j + n + m];
  }
}
