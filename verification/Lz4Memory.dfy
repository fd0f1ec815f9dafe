/** The copy routines of src/lz4.c.  Buffers are arrays, pointers are indices into them, and every
    write is checked against the array's bounds: overshoot is part of what is verified. */
module Lz4Memory {
  import opened Lz4Format

  const INC32TABLE: seq<int> := [0, 1, 2, 1, 0, 4, 4, 4]
  const DEC64TABLE: seq<int> := [0, 0, 0, -1, -4, 1, 2, 3]

  /** `s` repeats at distance `offset` from `start` to `end`; offset 0 stands for zero bytes. */
  ghost predicate Repeats(s: seq<byte>, start: int, end: int, offset: int) {
    && 0 <= offset <= start && end <= |s|
    && forall i :: start <= i < end ==> s[i] == if offset == 0 then 0 else s[i - offset]
  }

  /** Last byte, exclusive, that a wild copy of `unit`-byte chunks from `d` up to `e` may write. */
  function WildEnd(d: int, e: int, unit: int): int {
    if d < e then e + unit - 1 else d + unit
  }

  // ---------------------------------------------------------------- memcpy

  method Memcpy(dst: array<byte>, d: int, s: int, n: nat)
    requires 0 <= s && 0 <= d && s + n <= dst.Length && d + n <= dst.Length
    requires s + n <= d  // the library copy must not overlap; every caller copies forwards
    modifies dst
    ensures forall i :: 0 <= i < dst.Length && !(d <= i < d + n) ==> dst[i] == old(dst[i])
    ensures forall i :: d <= i < d + n ==> dst[i] == dst[i - (d - s)]
  {
    forall i | d <= i < d + n { dst[i] := dst[i - (d - s)]; }
  }

  method CopyIn(dst: array<byte>, d: int, src: seq<byte>, s: int, n: nat)
    requires 0 <= s && 0 <= d && s + n <= |src| && d + n <= dst.Length
    modifies dst
    ensures forall i :: 0 <= i < dst.Length && !(d <= i < d + n) ==> dst[i] == old(dst[i])
    ensures forall i :: d <= i < d + n ==> dst[i] == src[i - d + s]
  {
    forall i | d <= i < d + n { dst[i] := src[i - d + s]; }
  }

  // ---------------------------------------------------------------- wild copies within the output

  method WildCopy8(dst: array<byte>, d0: int, s0: int, e: int)
    requires 0 <= s0 && s0 + 8 <= d0 && WildEnd(d0, e, 8) <= dst.Length
    modifies dst
    ensures forall i :: 0 <= i < d0 ==> dst[i] == old(dst[i])
    ensures forall i :: WildEnd(d0, e, 8) <= i < dst.Length ==> dst[i] == old(dst[i])
    ensures forall i :: d0 <= i < e || d0 <= i < d0 + 8 ==> dst[i] == dst[i - (d0 - s0)]
  {
    var d, s := d0 + 8, s0 + 8;
    Memcpy(dst, d0, s0, 8);
    while d < e
      invariant d - s == d0 - s0 && d0 + 8 <= d <= WildEnd(d0, e, 8)
      invariant forall i :: 0 <= i < d0 ==> dst[i] == old(dst[i])
      invariant forall i :: d <= i < dst.Length ==> dst[i] == old(dst[i])
      invariant forall i :: d0 <= i < d ==> dst[i] == dst[i - (d0 - s0)]
    {
      Memcpy(dst, d, s, 8);
      d, s := d + 8, s + 8;
    }
  }

  method WildCopy32(dst: array<byte>, d0: int, s0: int, e: int)
    requires 0 <= s0 && s0 + 16 <= d0 && WildEnd(d0, e, 32) <= dst.Length
    modifies dst
    ensures forall i :: 0 <= i < d0 ==> dst[i] == old(dst[i])
    ensures forall i :: WildEnd(d0, e, 32) <= i < dst.Length ==> dst[i] == old(dst[i])
    ensures forall i :: d0 <= i < e ==> dst[i] == dst[i - (d0 - s0)]
  {
    var d, s := d0, s0;
    var first := true;
    while first || d < e
      invariant d - s == d0 - s0 && d0 <= d && (if first then d == d0 else d <= WildEnd(d0, e, 32))
      invariant forall i :: 0 <= i < d0 ==> dst[i] == old(dst[i])
      invariant forall i :: d <= i < dst.Length ==> dst[i] == old(dst[i])
      invariant forall i :: d0 <= i < d ==> dst[i] == dst[i - (d0 - s0)]
      decreases first, e - d
    {
      Memcpy(dst, d, s, 16);
      Memcpy(dst, d + 16, s + 16, 16);
      d, s, first := d + 32, s + 32, false;
    }
  }

  // ---------------------------------------------------------------- wild copies from the input

  method WildCopyIn(dst: array<byte>, d0: int, src: seq<byte>, s0: int, e: int, unit: nat)
    requires unit == 8 || unit == 32
    requires 0 <= s0 && 0 <= d0 && WildEnd(d0, e, unit) <= dst.Length
    requires WildEnd(s0, s0 + (e - d0), unit) <= |src|
    modifies dst
    ensures forall i :: 0 <= i < d0 ==> dst[i] == old(dst[i])
    ensures forall i :: WildEnd(d0, e, unit) <= i < dst.Length ==> dst[i] == old(dst[i])
    ensures forall i :: d0 <= i < e ==> dst[i] == src[i - d0 + s0]
  {
    var d, s := d0, s0;
    var first := true;
    while first || d < e
      invariant d - s == d0 - s0 && d0 <= d && (if first then d == d0 else d <= WildEnd(d0, e, unit))
      invariant forall i :: 0 <= i < d0 ==> dst[i] == old(dst[i])
      invariant forall i :: d <= i < dst.Length ==> dst[i] == old(dst[i])
      invariant forall i :: d0 <= i < d ==> dst[i] == src[i - d0 + s0]
      decreases first, e - d
    {
      CopyIn(dst, d, src, s, unit);
      d, s, first := d + unit, s + unit, false;
    }
  }

  // ---------------------------------------------------------------- overlapping matches

  /** Distance at which copying goes on after the table-driven start, as a multiple of the offset. */
  function Multiple(offset: nat): nat
    requires offset < 8
  {
    [0, 8, 4, 3, 2, 2, 2, 2][offset]
  }

  lemma {:induction false} StepsBack(s: seq<byte>, start: int, end: int, offset: int, x: int, k: nat)
    requires Repeats(s, start, end, offset) && 0 < offset
    requires x < end && start - offset <= x - k * offset
    ensures x - k * offset >= 0 && s[x] == s[x - k * offset]
    decreases k
  {
    if k > 0 {
      assert k * offset == (k - 1) * offset + offset;
      assert (k - 1) * offset >= 0;
      StepsBack(s, start, end, offset, x - offset, k - 1);
    }
  }

  /** Copying at a multiple of the offset prolongs a run that repeats at the offset. */
  lemma {:induction false} MultipleRepeats(s: seq<byte>, start: int, mid: int, end: int, offset: int, c: nat)
    requires 0 < offset && 0 < c && start <= mid <= end <= |s|
    requires Repeats(s, start, mid, offset)
    requires c * offset <= mid - start + offset && c * offset <= mid
    requires forall i :: mid <= i < end ==> s[i] == s[i - c * offset]
    ensures Repeats(s, start, end, offset)
    decreases end - mid
  {
    if mid < end {
      assert c * offset == (c - 1) * offset + offset;
      StepsBack(s, start, mid, offset, mid - offset, c - 1);
      assert s[mid] == s[mid - offset];
      MultipleRepeats(s, start, mid + 1, end, offset, c);
    }
  }

  lemma {:induction false} ZerosRepeat(s: seq<byte>, start: int, mid: int, end: int)
    requires 0 <= start && start + 8 <= mid <= end <= |s|
    requires Repeats(s, start, mid, 0)
    requires forall i :: mid <= i < end ==> s[i] == s[i - 8]
    ensures Repeats(s, start, end, 0)
    decreases end - mid
  {
    if mid < end {
      assert s[mid] == s[mid - 8] == 0;
      ZerosRepeat(s, start, mid + 1, end);
    }
  }

  /** Distance of the second word of the start: the table moves the source forward. */
  function SecondWord(offset: nat): nat
    requires offset < 8
  {
    [4, 4, 4, 6, 8, 5, 6, 7][offset]
  }

  method FirstFour(dst: array<byte>, d: int, m: int)
    requires 0 <= m <= d && d + 4 <= dst.Length
    modifies dst
    ensures forall i :: 0 <= i < dst.Length && !(d <= i < d + 4) ==> dst[i] == old(dst[i])
    ensures forall i :: d <= i < d + 4 ==> dst[i] == if m == d then 0 else dst[i - (d - m)]
  {
    dst[d], dst[d + 1], dst[d + 2], dst[d + 3] := 0, 0, 0, 0;
    dst[d] := dst[m];
    dst[d + 1] := dst[m + 1];
    dst[d + 2] := dst[m + 2];
    dst[d + 3] := dst[m + 3];
  }

  /** A match shorter than a word apart starts with four single bytes and a table-driven word; the
      result is where the rest of the match is to be copied from. */
  method OverlapStart(dst: array<byte>, d: int, offset: nat) returns (s: int)
    requires offset < 8 && offset <= d && d + 8 <= dst.Length
    modifies dst
    ensures forall i :: 0 <= i < dst.Length && !(d <= i < d + 8) ==> dst[i] == old(dst[i])
    ensures Repeats(dst[..], d, d + 8, offset)
    ensures 0 <= s && s + 8 <= d + 8 && d + 8 - s <= 8 + offset
    ensures d + 8 - s == if offset == 0 then 8 else Multiple(offset) * offset
  {
    var m := d - offset;
    FirstFour(dst, d, m);
    m := m + INC32TABLE[offset];
    assert d + 4 - m == SecondWord(offset);
    Memcpy(dst, d + 4, m, 4);
    FirstWord(dst[..], d, offset);
    s := m - DEC64TABLE[offset];
  }

  lemma FirstWord(s: seq<byte>, d: int, offset: nat)
    requires offset < 8 && offset <= d && d + 8 <= |s|
    requires Repeats(s, d, d + 4, offset)
    requires forall i :: d + 4 <= i < d + 8 ==> s[i] == s[i - SecondWord(offset)]
    ensures Repeats(s, d, d + 8, offset)
  {
    if offset == 0 {
      assert s[d + 4] == s[d] && s[d + 5] == s[d + 1] && s[d + 6] == s[d + 2] && s[d + 7] == s[d + 3];
    } else {
      MultipleRepeats(s, d, d + 4, d + 8, offset, [0, 4, 2, 2, 2, 1, 1, 1][offset]);
    }
  }

  /** The rest of a match after OverlapStart, or after one plain word, repeats as the start did. */
  lemma RestRepeats(s: seq<byte>, d: int, e: int, offset: nat, from: int)
    requires offset < 8 && d + 8 <= e <= |s|
    requires Repeats(s, d, d + 8, offset)
    requires 0 <= from && d + 8 - from <= 8 + offset
    requires d + 8 - from == if offset == 0 then 8 else Multiple(offset) * offset
    requires forall i :: d + 8 <= i < e ==> s[i] == s[i - (d + 8 - from)]
    ensures Repeats(s, d, e, offset)
  {
    if offset == 0 {
      ZerosRepeat(s, d, d + 8, e);
    } else {
      MultipleRepeats(s, d, d + 8, e, offset, Multiple(offset));
    }
  }

  method MemcpyUsingOffsetBase(dst: array<byte>, d: int, e: int, offset: nat)
    requires offset <= d && d <= e && WildEnd(d + 8, e, 8) <= dst.Length
    modifies dst
    ensures forall i :: 0 <= i < d ==> dst[i] == old(dst[i])
    ensures Repeats(dst[..], d, e, offset)
  {
    var s;
    if offset < 8 {
      s := OverlapStart(dst, d, offset);
    } else {
      Memcpy(dst, d, d - offset, 8);
      s := d - offset + 8;
    }
    ghost var word := dst[..];
    WildCopy8(dst, d + 8, s, e);
    assert forall i :: 0 <= i < d + 8 ==> dst[i] == word[i];
    if offset < 8 && d + 8 < e {
      assert Repeats(dst[..], d, d + 8, offset);
      RestRepeats(dst[..], d, e, offset, s);
    }
  }

  method MemcpyUsingOffset(dst: array<byte>, d0: int, e: int, offset: nat)
    requires offset <= d0 && d0 + MINMATCH <= e && WildEnd(d0 + 8, e, 8) <= dst.Length
    modifies dst
    ensures forall i :: 0 <= i < d0 ==> dst[i] == old(dst[i])
    ensures Repeats(dst[..], d0, e, offset)
  {
    var s := d0 - offset;
    if offset == 1 {
      var b := dst[s];
      PatternFill(dst, d0, e, 1, [b, b, b, b, b, b, b, b]);
    } else if offset == 2 {
      var v := [dst[s], dst[s + 1]] + [dst[s], dst[s + 1]];
      PatternFill(dst, d0, e, 2, v + v[..4]);
    } else if offset == 4 {
      var v := [dst[s], dst[s + 1], dst[s + 2], dst[s + 3]];
      PatternFill(dst, d0, e, 4, v + v);
    } else {
      MemcpyUsingOffsetBase(dst, d0, e, offset);
    }
  }

  /** Writes the 8-byte pattern `v` until `e` is passed; the pattern repeats the last `offset` bytes. */
  method PatternFill(dst: array<byte>, d0: int, e: int, offset: nat, v: seq<byte>)
    requires offset in {1, 2, 4} && offset <= d0 && d0 + MINMATCH <= e && WildEnd(d0 + 8, e, 8) <= dst.Length
    requires |v| == 8 && forall k :: 0 <= k < 8 - offset ==> v[k] == v[k + offset]
    requires forall i :: d0 - offset <= i < d0 ==> dst[i] == v[i - (d0 - offset)]
    modifies dst
    ensures forall i :: 0 <= i < d0 ==> dst[i] == old(dst[i])
    ensures Repeats(dst[..], d0, e, offset)
  {
    ghost var entry := dst[..];
    CopyIn(dst, d0, v, 0, 8);
    var d := d0 + 8;
    PatternRepeats(dst[..], d0, offset, v);
    while d < e
      invariant d0 + 8 <= d <= WildEnd(d0 + 8, e, 8)
      invariant dst[..d0] == entry[..d0]
      invariant Repeats(dst[..], d0, d, offset)
      invariant forall i :: d - 8 <= i < d ==> dst[i] == v[i - (d - 8)]
    {
      ghost var before := dst[..];
      assert forall k :: 8 - offset <= k < 8 ==> v[k - 8 + offset] == v[k] by { PatternEnds(v, offset); }
      CopyIn(dst, d, v, 0, 8);
      assert dst[..d] == before[..d];
      PatternRepeats(dst[..], d, offset, v);
      d := d + 8;
    }
  }

  /** An 8-byte pattern of period 1, 2 or 4 ends the way it starts. */
  lemma PatternEnds(v: seq<byte>, offset: nat)
    requires offset in {1, 2, 4} && |v| == 8
    requires forall k :: 0 <= k < 8 - offset ==> v[k] == v[k + offset]
    ensures forall k :: 8 - offset <= k < 8 ==> v[k] == v[k - 8 + offset]
  {
    assert v[0] == v[0 + offset] && v[1] == v[1 + offset] && v[2] == v[2 + offset] && v[3] == v[3 + offset];
    if offset < 4 { assert v[4] == v[4 + offset] && v[5] == v[5 + offset]; }
    if offset == 1 { assert v[6] == v[6 + offset]; }
  }

  lemma PatternRepeats(s: seq<byte>, d: int, offset: nat, v: seq<byte>)
    requires offset in {1, 2, 4} && offset <= d && d + 8 <= |s| && |v| == 8
    requires forall k :: 0 <= k < 8 - offset ==> v[k] == v[k + offset]
    requires forall i :: d <= i < d + 8 ==> s[i] == v[i - d]
    requires forall i :: d - offset <= i < d ==> s[i] == v[i - d + offset]
    ensures Repeats(s, d, d + 8, offset)
  {
    forall i | d <= i < d + 8 ensures s[i] == s[i - offset] {
      if i - offset >= d { assert v[i - offset - d] == v[i - d]; }
      else { assert v[i - d] == s[i]; assert s[i - offset] == v[i - d]; }
    }
  }
}
