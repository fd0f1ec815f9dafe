/** What callers own: stores into the payload of an allocated block, and payload bytes. */
module TlsfPayload {
  import opened TlsfMapping
  import opened TlsfLists
  import opened TlsfTiling
  import opened TlsfState

  // ---------------------------------------------------------------- stores

  /** Only payload of block `c` may differ. */
  ghost predicate OnlyPayload(m: seq<nat>, m': seq<nat>, g: Shape, c: nat)
    requires c in g.span
  {
    |m'| == |m| && forall i :: 0 <= i < |m| && !(c + 2 <= i < c + 2 + g.span[c]) ==> m'[i] == m[i]
  }

  lemma PayloadCell(m: seq<nat>, m': seq<nat>, g: Shape, c: nat, x: nat)
    requires Disjoint(g) && Tile(g, |m|, c) && Cell(m, g, c) && g.span[c] > 0 && c !in g.free
    requires Tile(g, |m|, x) && Cell(m, g, x) && OnlyPayload(m, m', g, c)
    requires g.span[x] > 0 ==> Tile(g, |m|, Next(g, x))
    requires Tile(g, |m|, Next(g, c))
    ensures Cell(m', g, x)
  {
    if x != c { Apart(g, |m|, c, x); }
    assert m'[x + 1] == m[x + 1];
    if x != Next(g, c) { assert m'[x] == m[x]; }
    if g.span[x] > 0 {
      var y := Next(g, x);
      if y != c { Apart(g, |m|, c, y); }
      assert m'[y + 1] == m[y + 1];
      if x != c { assert m'[y] == m[y]; }
    }
  }

  lemma PayloadLinked(m: seq<nat>, m': seq<nat>, blocks: seq<nat>, g: Shape, links: Links, c: nat)
    requires Tiling(m, g) && Filed(g, links) && Linked(m, blocks, links) && c in Live(g) && OnlyPayload(m, m', g, c)
    ensures Linked(m', blocks, links)
  {
    DisjointIff(g);
    assert Tile(g, |m|, c);
    forall x | x in links.list && x + 3 < |m| ensures m'[x + 2] == m[x + 2] && m'[x + 3] == m[x + 3] {
      assert x in g.free && x in g.span;
      assert Tile(g, |m|, x);
      Apart(g, |m|, c, x);
    }
    LinkedFrame(m, m', blocks, links);
  }

  /** Callers may write what they own: the heap keeps its invariant, others their contents. */
  lemma PayloadKeeps(m: seq<nat>, m': seq<nat>, ctl: Control, g: Shape, links: Links, c: nat)
    requires Consistent(m, ctl, g, links) && c in Live(g) && OnlyPayload(m, m', g, c)
    ensures Consistent(m', ctl, g, links) && Kept(m, m', Live(g) - {c})
  {
    DisjointIff(g);
    assert Tile(g, |m|, c) && Cell(m, g, c) && Tile(g, |m|, Next(g, c));
    forall x | x in g.span ensures Cell(m', g, x) {
      assert Tile(g, |m|, x) && Cell(m, g, x);
      if g.span[x] > 0 { assert Tile(g, |m|, Next(g, x)); }
      PayloadCell(m, m', g, c, x);
    }
    PayloadLinked(m, m', ctl.blocks, g, links, c);
    PayloadApart(m, m', g, c);
  }

  lemma PayloadApart(m: seq<nat>, m': seq<nat>, g: Shape, c: nat)
    requires Tiling(m, g) && c in Live(g) && OnlyPayload(m, m', g, c)
    ensures Kept(m, m', Live(g) - {c})
  {
    DisjointIff(g);
    forall x, k | x in Live(g) - {c} && x + 2 <= k < x + 2 + (Live(g) - {c})[x] && k < |m| ensures m'[k] == m[k] {
      assert Tile(g, |m|, x) && Tile(g, |m|, c);
      Apart(g, |m|, c, x);
    }
  }

  // ---------------------------------------------------------------- bytes

  /** Byte `j` of a word, lowest address first. */
  function WordByte(w: nat, j: nat): nat {
    if j == 0 then w % 256 else WordByte(w / 256, j - 1)
  }

  /** Byte `i` of the memory behind the pointer `p`. */
  function ByteAt(m: seq<nat>, p: nat, i: nat): nat
    requires p + i / 8 < |m|
  {
    WordByte(m[p + i / 8], i % 8)
  }

  /** `into` with its first `r` bytes replaced by those of `w`. */
  function Blend(into: nat, w: nat, r: nat): nat {
    if r == 0 then into else w % 256 + 256 * Blend(into / 256, w / 256, r - 1)
  }

  lemma {:induction false} BlendBytes(into: nat, w: nat, r: nat, j: nat)
    ensures WordByte(Blend(into, w, r), j) == WordByte(if j < r then w else into, j)
  {
    if r > 0 {
      var b := Blend(into, w, r);
      assert b % 256 == w % 256 && b / 256 == Blend(into / 256, w / 256, r - 1);
      if j > 0 { BlendBytes(into / 256, w / 256, r - 1, j - 1); }
    }
  }

  ghost predicate SameByte(m: seq<nat>, p: nat, m': seq<nat>, q: nat, i: nat) {
    p + i / 8 < |m| && q + i / 8 < |m'| && ByteAt(m', q, i) == ByteAt(m, p, i)
  }

  /** The first `n` bytes behind `q` are those that were behind `p`. */
  ghost predicate SameBytes(m: seq<nat>, p: nat, m': seq<nat>, q: nat, n: nat) {
    forall i: nat {:trigger SameByte(m, p, m', q, i)} :: i < n ==> SameByte(m, p, m', q, i)
  }

  lemma SameWordsSameBytes(m: seq<nat>, p: nat, m': seq<nat>, q: nat, n: nat, k: nat)
    requires p + k <= |m| && q + k <= |m'| && n <= 8 * k
    requires forall i :: q <= i < q + k ==> m'[i] == m[p + (i - q)]
    ensures SameBytes(m, p, m', q, n)
  {
    forall i: nat | i < n ensures SameByte(m, p, m', q, i) {
      var x := q + i / 8;
      assert m'[x] == m[p + (x - q)];
    }
  }

  /** Whole words, and the low bytes of one more. */
  lemma CopiedBytes(m: seq<nat>, p: nat, m': seq<nat>, q: nat, n: nat)
    requires p + (n + 7) / 8 <= |m| && q + (n + 7) / 8 <= |m'| && |m'| == |m|
    requires forall i :: q <= i < q + n / 8 ==> m'[i] == m[p + (i - q)]
    requires n % 8 > 0 ==> m'[q + n / 8] == Blend(m[q + n / 8], m[p + n / 8], n % 8)
    ensures SameBytes(m, p, m', q, n)
  {
    forall i: nat | i < n ensures SameByte(m, p, m', q, i) {
      if i / 8 == n / 8 {
        BlendBytes(m[q + n / 8], m[p + n / 8], n % 8, i % 8);
      } else {
        var x := q + i / 8;
        assert m'[x] == m[p + (x - q)];
      }
    }
  }

  /** What `u` keeps of block `b`, in bytes. */
  lemma KeptBytes(m: seq<nat>, m': seq<nat>, u: map<nat, nat>, b: nat, n: nat)
    requires Kept(m, m', u) && b in u && n <= 8 * u[b] && b + 2 + u[b] <= |m|
    ensures SameBytes(m, b + 2, m', b + 2, n)
  {
    SameWordsSameBytes(m, b + 2, m', b + 2, n, u[b]);
  }

  lemma SameBytesTransitive(m: seq<nat>, p: nat, m': seq<nat>, q: nat, m'': seq<nat>, r: nat, n: nat)
    requires SameBytes(m, p, m', q, n) && SameBytes(m', q, m'', r, n)
    ensures SameBytes(m, p, m'', r, n)
  {
    forall i: nat | i < n ensures SameByte(m, p, m'', r, i) {
      assert SameByte(m, p, m', q, i) && SameByte(m', q, m'', r, i);
    }
  }

  function Least(a: nat, b: nat, c: nat): nat {
    if a <= b && a <= c then a else if b <= c then b else c
  }

  /** Copy and release, seen from the bytes that are moved and from everybody else's. */
  lemma CopiedAndFreed(m: seq<nat>, m1: seq<nat>, m2: seq<nat>, live: map<nat, nat>, p: nat, r: nat, n: nat)
    requires 2 <= p && 2 <= r && p != r && r - 2 in live && n <= 8 * live[r - 2] && r + live[r - 2] <= |m1|
    requires SameBytes(m, p, m1, r, n) && Kept(m, m1, live - {r - 2}) && Kept(m1, m2, live - {p - 2})
    ensures SameBytes(m, p, m2, r, n) && Kept(m, m2, live - {p - 2} - {r - 2})
  {
    KeptBytes(m1, m2, live - {p - 2}, r - 2, n);
    SameBytesTransitive(m, p, m1, r, m2, r, n);
    KeptLess(m, m1, live - {r - 2}, live - {p - 2} - {r - 2});
    KeptLess(m1, m2, live - {p - 2}, live - {p - 2} - {r - 2});
  }

  /** Allocation before that. */
  lemma MovedBytes(m: seq<nat>, m1: seq<nat>, m2: seq<nat>, live: map<nat, nat>, live1: map<nat, nat>, p: nat,
        r: nat, n: nat)
    requires 2 <= p && 2 <= r && p - 2 in live && r - 2 in live1 && r - 2 !in live
    requires live1 == live[r - 2 := live1[r - 2]] && n <= 8 * live[p - 2] && p + live[p - 2] <= |m|
    requires Kept(m, m1, live) && SameBytes(m1, p, m2, r, n) && Kept(m1, m2, live1 - {p - 2} - {r - 2})
    ensures SameBytes(m, p, m2, r, n) && Kept(m, m2, live - {p - 2})
  {
    KeptBytes(m, m1, live, p - 2, n);
    SameBytesTransitive(m, p, m1, p, m2, r, n);
    KeptLess(m, m1, live, live - {p - 2});
    KeptLess(m1, m2, live1 - {p - 2} - {r - 2}, live - {p - 2});
  }

  /** At most `n` words of block `b` are spoken for. */
  function Shrunk(u: map<nat, nat>, b: nat, n: nat): map<nat, nat>
    requires b in u
  {
    if u[b] < n then u else u[b := n]
  }

  /** A block that was resized in place, to `n` words. */
  lemma ResizedBytes(m: seq<nat>, m': seq<nat>, live: map<nat, nat>, p: nat, n: nat, size: nat)
    requires 2 <= p && p - 2 in live && p + live[p - 2] <= |m|
    requires Kept(m, m', Shrunk(live, p - 2, n))
    ensures SameBytes(m, p, m', p, Least(8 * live[p - 2], 8 * n, size)) && Kept(m, m', live - {p - 2})
  {
    var u := Shrunk(live, p - 2, n);
    KeptBytes(m, m', u, p - 2, Least(8 * live[p - 2], 8 * n, size));
    KeptLess(m, m', u, live - {p - 2});
  }
}
