/** The segregated free lists of src/tlsf.c: doubly linked through the free blocks themselves, with two
    levels of bitmaps that say which lists hold something.

    A block is the index of its header in memory; `&control->block_null` is index 0. */
module TlsfLists {
  import opened Bits
  import opened TlsfMapping

  const LISTS := FL_INDEX_COUNT * SL_INDEX_COUNT
  const NULL_BLOCK := 0

  /** unsigned int has 32 bits. */
  const UINT_LIMIT := 0x1_0000_0000

  /** control_t without block_null: the bitmaps and the list heads, `blocks[fl][sl]` at fl * 32 + sl. */
  datatype Control = Control(flBitmap: nat, slBitmap: seq<nat>, blocks: seq<nat>)

  // ---------------------------------------------------------------- the bitmaps

  predicate WellSized(c: Control) {
    && |c.slBitmap| == FL_INDEX_COUNT && |c.blocks| == LISTS
    && c.flBitmap < UINT_LIMIT
    && forall i :: 0 <= i < FL_INDEX_COUNT ==> c.slBitmap[i] < UINT_LIMIT
  }

  /** Both levels say exactly which lists are not empty. */
  ghost predicate Mapped(c: Control) {
    && WellSized(c)
    && (forall k :: 0 <= k < LISTS ==> (Bit(c.slBitmap[k / 32], k % 32) <==> c.blocks[k] != NULL_BLOCK))
    && (forall i :: 0 <= i < FL_INDEX_COUNT ==> (Bit(c.flBitmap, i) <==> c.slBitmap[i] != 0))
    && (forall i :: FL_INDEX_COUNT <= i ==> !Bit(c.flBitmap, i))
  }

  function AllOnesFrom(s: nat): nat
    requires s < 32
  {
    Pow2Monotone(s, 32);
    Not(32, Pow2(s) - 1)
  }

  /** `~0U << s`, the shift done in 32 bits, has the bits from `s` on. */
  lemma ShiftedOnes(s: nat)
    requires s < 32
    ensures ((Pow2(32) - 1) * Pow2(s)) % Pow2(32) == AllOnesFrom(s)
  {
    Pow2Monotone(s, 32);
    AllOnesTimes(Pow2(32), Pow2(s));
  }

  lemma AllOnesTimes(p: nat, q: nat)
    requires 0 < q <= p
    ensures ((p - 1) * q) % p == p - q
  {
    assert (p - 1) * q == p * q - q && (q - 1) * p == p * q - p;
    ModUnique((p - 1) * q, p, q - 1, p - q);
  }

  lemma BitFrom(n: nat, s: nat, i: nat)
    requires s < 32 && n < UINT_LIMIT
    ensures Bit(And(n, AllOnesFrom(s)), i) <==> Bit(n, i) && s <= i
  {
    Pow64();
    Pow2Monotone(s, 32);
    BitAnd(n, AllOnesFrom(s), i);
    BitNot(32, Pow2(s) - 1, i);
    BitBelow(s, i);
    if i >= 32 { BitBound(32, n, i); }
  }

  /** The first bit from `s` on. */
  lemma FirstFrom(n: nat, s: nat)
    requires s < 32 && n < UINT_LIMIT
    ensures And(n, AllOnesFrom(s)) == 0 ==> forall i :: s <= i ==> !Bit(n, i)
    ensures And(n, AllOnesFrom(s)) != 0 ==>
      var k := Ctz(And(n, AllOnesFrom(s)));
      s <= k < 32 && Bit(n, k) && forall i :: s <= i < k ==> !Bit(n, i)
  {
    Pow64();
    var x := And(n, AllOnesFrom(s));
    if x == 0 {
      forall i | s <= i ensures !Bit(n, i) { BitFrom(n, s, i); BitZero(i); }
    } else {
      NonZeroBit(x);
      var k := Ctz(x);
      BitFrom(n, s, k);
      if k >= 32 { BitBound(32, n, k); }
      forall i | s <= i < k ensures !Bit(n, i) { BitFrom(n, s, i); }
    }
  }

  function SetBit(w: nat, i: nat): nat {
    Or(w, Pow2(i))
  }

  function ClearBit(w: nat, i: nat): nat
    requires i < 32
  {
    Pow2Monotone(i + 1, 32);
    And(w, Not(32, Pow2(i)))
  }

  lemma SetBitBits(w: nat, i: nat, k: nat)
    requires i < 32 && w < UINT_LIMIT
    ensures SetBit(w, i) < UINT_LIMIT && SetBit(w, i) != 0
    ensures Bit(SetBit(w, i), k) <==> k == i || Bit(w, k)
  {
    Pow64();
    Pow2Monotone(i + 1, 32);
    OrBound(32, w, Pow2(i));
    BitOr(w, Pow2(i), k);
    BitPow2(i, k);
    BitOr(w, Pow2(i), i);
    BitPow2(i, i);
    if SetBit(w, i) == 0 { BitZero(i); }
  }

  lemma ClearBitBits(w: nat, i: nat, k: nat)
    requires i < 32 && w < UINT_LIMIT
    ensures ClearBit(w, i) < UINT_LIMIT
    ensures Bit(ClearBit(w, i), k) <==> k != i && Bit(w, k)
  {
    Pow64();
    Pow2Monotone(i + 1, 32);
    AndBound(32, w, Not(32, Pow2(i)));
    BitAnd(w, Not(32, Pow2(i)), k);
    BitNot(32, Pow2(i), k);
    BitPow2(i, k);
    if k >= 32 { BitBound(32, w, k); }
  }

  /** A word with no bit below 32 is 0. */
  lemma NoBits(w: nat)
    requires w < UINT_LIMIT
    ensures w == 0 ==> forall i :: 0 <= i < 32 ==> !Bit(w, i)
    ensures w != 0 ==> exists i :: 0 <= i < 32 && Bit(w, i)
  {
    Pow64();
    if w == 0 {
      forall i | 0 <= i < 32 ensures !Bit(w, i) { BitZero(i); }
    } else {
      LowestBit(w);
    }
  }

  /** Masking with one bit tests it. */
  lemma TestBit(w: nat, i: nat)
    ensures And(w, Pow2(i)) != 0 <==> Bit(w, i)
  {
    var x := And(w, Pow2(i));
    if x != 0 {
      NonZeroBit(x);
      BitAnd(w, Pow2(i), Ctz(x));
      BitPow2(i, Ctz(x));
    } else {
      BitAnd(w, Pow2(i), i);
      BitPow2(i, i);
      BitZero(i);
    }
  }

  // ---------------------------------------------------------------- search

  /** The first list from (fl, sl) on that holds a block; None when there is none. */
  method SearchSuitableBlock(c: Control, cls: Class) returns (r: bool, found: Class)
    requires Mapped(c) && 0 <= cls.fl < FL_INDEX_COUNT && 0 <= cls.sl < SL_INDEX_COUNT
    ensures r ==>
      && 0 <= found.fl < FL_INDEX_COUNT && 0 <= found.sl < SL_INDEX_COUNT
      && cls.Index() <= found.Index() && c.blocks[found.Index()] != NULL_BLOCK
    ensures r ==> forall k :: cls.Index() <= k < found.Index() ==> c.blocks[k] == NULL_BLOCK
    ensures !r ==> forall k :: cls.Index() <= k < LISTS ==> c.blocks[k] == NULL_BLOCK
  {
    var slMap := And(c.slBitmap[cls.fl], AllOnesFrom(cls.sl));
    FirstFrom(c.slBitmap[cls.fl], cls.sl);
    if slMap != 0 {
      r, found := true, Class(cls.fl, Ctz(slMap));
      RowEmpty(c, cls.fl, cls.sl, found.sl);
    } else {
      RowEmpty(c, cls.fl, cls.sl, 32);
      r, found := SearchLargerList(c, cls.fl + 1);
    }
  }

  /** The search in the next largest first-level list. */
  method SearchLargerList(c: Control, from: nat) returns (r: bool, found: Class)
    requires Mapped(c) && from <= FL_INDEX_COUNT
    ensures r ==>
      && from <= found.fl < FL_INDEX_COUNT && 0 <= found.sl < SL_INDEX_COUNT
      && c.blocks[found.Index()] != NULL_BLOCK
      && forall k :: from * 32 <= k < found.Index() ==> c.blocks[k] == NULL_BLOCK
    ensures !r ==> forall k :: from * 32 <= k < LISTS ==> c.blocks[k] == NULL_BLOCK
  {
    var flMap := And(c.flBitmap, AllOnesFrom(from));
    FirstFrom(c.flBitmap, from);
    if flMap == 0 {
      RowsEmpty(c, from, FL_INDEX_COUNT);
      return false, Class(0, 0);
    }
    var fl := Ctz(flMap);
    RowsEmpty(c, from, fl);
    var slMap := c.slBitmap[fl];
    LowestBit(slMap);
    r, found := true, Class(fl, Ctz(slMap));
    RowEmpty(c, fl, 0, found.sl);
  }

  lemma LowestBit(w: nat)
    requires 0 < w < UINT_LIMIT
    ensures Ctz(w) < 32 && Bit(w, Ctz(w)) && forall i :: 0 <= i < Ctz(w) ==> !Bit(w, i)
  {
    Pow64();
    NonZeroBit(w);
    if Ctz(w) >= 32 { BitBound(32, w, Ctz(w)); }
  }

  lemma RowEmpty(c: Control, fl: nat, from: nat, to: nat)
    requires Mapped(c) && fl < FL_INDEX_COUNT && from <= to <= 32
    requires forall i :: from <= i < to ==> !Bit(c.slBitmap[fl], i)
    ensures forall k :: fl * 32 + from <= k < fl * 32 + to ==> c.blocks[k] == NULL_BLOCK
    ensures to < 32 && Bit(c.slBitmap[fl], to) ==> c.blocks[fl * 32 + to] != NULL_BLOCK
  {
    forall k | fl * 32 + from <= k < fl * 32 + to ensures c.blocks[k] == NULL_BLOCK {
      DivMod32(fl, k - fl * 32);
    }
    if to < 32 { DivMod32(fl, to); }
  }

  lemma RowsEmpty(c: Control, from: nat, to: nat)
    requires Mapped(c) && from <= to <= FL_INDEX_COUNT
    requires forall i :: from <= i < to ==> !Bit(c.flBitmap, i)
    ensures forall k :: from * 32 <= k < to * 32 ==> c.blocks[k] == NULL_BLOCK
  {
    forall k | from * 32 <= k < to * 32 ensures c.blocks[k] == NULL_BLOCK {
      var i := k / 32;
      assert c.slBitmap[i] == 0;
      BitZero(k % 32);
    }
  }

  // ---------------------------------------------------------------- the links

  /** What the lists are meant to hold: the list of each block and when the block was put in. */
  datatype Links = Links(list: map<nat, nat>, stamp: map<nat, nat>, clock: nat)

  function NextFree(m: seq<nat>, b: nat): nat
    requires b + 3 < |m|
  {
    m[b + 2]
  }

  function PrevFree(m: seq<nat>, b: nat): nat
    requires b + 3 < |m|
  {
    m[b + 3]
  }

  ghost predicate Known(m: seq<nat>, g: Links, b: nat, i: nat) {
    b in g.list && b in g.stamp && g.list[b] == i && g.stamp[b] < g.clock && 3 <= b && b + 3 < |m|
  }

  /** The block behind `b` in its list points back at it and is older. */
  ghost predicate NextOk(m: seq<nat>, g: Links, b: nat, i: nat)
    requires Known(m, g, b, i)
  {
    var n := NextFree(m, b);
    n == NULL_BLOCK || (Known(m, g, n, i) && PrevFree(m, n) == b && g.stamp[n] < g.stamp[b])
  }

  /** The block before `b` points at it; the first one is the head. */
  ghost predicate PrevOk(m: seq<nat>, blocks: seq<nat>, g: Links, b: nat, i: nat)
    requires Known(m, g, b, i) && i < |blocks|
  {
    var p := PrevFree(m, b);
    if p == NULL_BLOCK then blocks[i] == b else Known(m, g, p, i) && NextFree(m, p) == b
  }

  /** A listed block. */
  ghost predicate Node(m: seq<nat>, blocks: seq<nat>, g: Links, b: nat) {
    && b in g.list && Known(m, g, b, g.list[b]) && g.list[b] < |blocks|
    && NextOk(m, g, b, g.list[b]) && PrevOk(m, blocks, g, b, g.list[b])
  }

  ghost predicate Head(m: seq<nat>, blocks: seq<nat>, g: Links, i: nat)
    requires i < |blocks|
  {
    var h := blocks[i];
    h == NULL_BLOCK || (Known(m, g, h, i) && PrevFree(m, h) == NULL_BLOCK)
  }

  ghost predicate Linked(m: seq<nat>, blocks: seq<nat>, g: Links) {
    && 4 <= |m|
    && (forall b {:trigger Node(m, blocks, g, b)} :: b in g.list ==> Node(m, blocks, g, b))
    && (forall i {:trigger Head(m, blocks, g, i)} :: 0 <= i < |blocks| ==> Head(m, blocks, g, i))
  }

  /** Headers of different blocks do not overlap. */
  ghost predicate Spaced(s: set<nat>) {
    forall b, c :: b in s && c in s && b < c ==> b + 4 <= c
  }

  ghost function Unlisted(g: Links, b: nat): Links {
    g.(list := g.list - {b})
  }

  ghost function Listed(g: Links, b: nat, i: nat): Links {
    Links(g.list[b := i], g.stamp[b := g.clock], g.clock + 1)
  }

  function UnlinkedWords(m: seq<nat>, b: nat): (r: seq<nat>)
    requires b + 3 < |m| && m[b + 2] + 3 < |m| && m[b + 3] + 2 < |m|
    ensures |r| == |m|
  {
    m[m[b + 2] + 3 := m[b + 3]][m[b + 3] + 2 := m[b + 2]]
  }

  function UnlinkedHeads(m: seq<nat>, blocks: seq<nat>, b: nat, i: nat): (r: seq<nat>)
    requires b + 3 < |m| && i < |blocks|
    ensures |r| == |blocks|
  {
    if blocks[i] == b then blocks[i := m[b + 2]] else blocks
  }

  lemma UnlinkNext(m: seq<nat>, blocks: seq<nat>, g: Links, b: nat, x: nat)
    requires Linked(m, blocks, g) && Spaced(g.list.Keys) && b in g.list && x in g.list && x != b
    requires Node(m, blocks, g, b) && Node(m, blocks, g, x)
    ensures m[b + 2] + 3 < |m| && m[b + 3] + 2 < |m|
    ensures NextOk(UnlinkedWords(m, b), Unlisted(g, b), x, g.list[x])
  {
    var n, p, y := m[b + 2], m[b + 3], m[x + 2];
    if y != NULL_BLOCK { assert Node(m, blocks, g, y); }
  }

  lemma UnlinkPrev(m: seq<nat>, blocks: seq<nat>, g: Links, b: nat, x: nat)
    requires Linked(m, blocks, g) && Spaced(g.list.Keys) && b in g.list && x in g.list && x != b
    requires Node(m, blocks, g, b) && Node(m, blocks, g, x)
    ensures m[b + 2] + 3 < |m| && m[b + 3] + 2 < |m|
    ensures PrevOk(UnlinkedWords(m, b), UnlinkedHeads(m, blocks, b, g.list[b]), Unlisted(g, b), x, g.list[x])
  {
    var n, p, q := m[b + 2], m[b + 3], m[x + 3];
    if q != NULL_BLOCK { assert Node(m, blocks, g, q); }
  }

  lemma UnlinkHead(m: seq<nat>, blocks: seq<nat>, g: Links, b: nat, i: nat)
    requires Linked(m, blocks, g) && Spaced(g.list.Keys) && b in g.list && i < |blocks|
    requires Node(m, blocks, g, b) && Head(m, blocks, g, i)
    ensures m[b + 2] + 3 < |m| && m[b + 3] + 2 < |m|
    ensures Head(UnlinkedWords(m, b), UnlinkedHeads(m, blocks, b, g.list[b]), Unlisted(g, b), i)
  {
    var n, p := m[b + 2], m[b + 3];
    if n != NULL_BLOCK { assert Node(m, blocks, g, n); }
    if p != NULL_BLOCK { assert Node(m, blocks, g, p); }
    var h := blocks[i];
    if h != NULL_BLOCK { assert Node(m, blocks, g, h); }
  }

  /** Taking a block out of its list keeps all lists. */
  lemma UnlinkKeeps(m: seq<nat>, blocks: seq<nat>, g: Links, b: nat)
    requires Linked(m, blocks, g) && Spaced(g.list.Keys) && b in g.list
    ensures Node(m, blocks, g, b) && m[b + 2] + 3 < |m| && m[b + 3] + 2 < |m|
    ensures Linked(UnlinkedWords(m, b), UnlinkedHeads(m, blocks, b, g.list[b]), Unlisted(g, b))
  {
    assert Node(m, blocks, g, b);
    var m', blocks', g' := UnlinkedWords(m, b), UnlinkedHeads(m, blocks, b, g.list[b]), Unlisted(g, b);
    forall x | x in g'.list ensures Node(m', blocks', g', x) {
      assert Node(m, blocks, g, x);
      UnlinkNext(m, blocks, g, b, x);
      UnlinkPrev(m, blocks, g, b, x);
    }
    forall i | 0 <= i < |blocks'| ensures Head(m', blocks', g', i) {
      assert Head(m, blocks, g, i);
      UnlinkHead(m, blocks, g, b, i);
    }
  }

  function LinkedWords(m: seq<nat>, blocks: seq<nat>, b: nat, i: nat): (r: seq<nat>)
    requires b + 3 < |m| && i < |blocks| && blocks[i] + 3 < |m|
    ensures |r| == |m|
  {
    m[b + 2 := blocks[i]][b + 3 := NULL_BLOCK][blocks[i] + 3 := b]
  }

  /** Putting a block at the head of a list keeps all lists. */
  lemma LinkKeeps(m: seq<nat>, blocks: seq<nat>, g: Links, b: nat, i: nat)
    requires Linked(m, blocks, g) && Spaced(g.list.Keys + {b}) && b !in g.list && i < |blocks|
    requires 3 <= b && b + 3 < |m|
    ensures Head(m, blocks, g, i) && blocks[i] + 3 < |m|
    ensures Linked(LinkedWords(m, blocks, b, i), blocks[i := b], Listed(g, b, i))
  {
    assert Head(m, blocks, g, i);
    var c := blocks[i];
    var m', blocks', g' := LinkedWords(m, blocks, b, i), blocks[i := b], Listed(g, b, i);
    if c != NULL_BLOCK { assert Node(m, blocks, g, c); }
    forall x | x in g'.list ensures Node(m', blocks', g', x) {
      LinkNode(m, blocks, g, b, i, x);
    }
    forall k | 0 <= k < |blocks'| ensures Head(m', blocks', g', k) {
      assert Head(m, blocks, g, k);
    }
  }

  lemma LinkNode(m: seq<nat>, blocks: seq<nat>, g: Links, b: nat, i: nat, x: nat)
    requires Linked(m, blocks, g) && Spaced(g.list.Keys + {b}) && b !in g.list && i < |blocks|
    requires 3 <= b && b + 3 < |m| && x in Listed(g, b, i).list
    requires Head(m, blocks, g, i)
    ensures blocks[i] + 3 < |m|
    ensures Node(LinkedWords(m, blocks, b, i), blocks[i := b], Listed(g, b, i), x)
  {
    assert b in g.list.Keys + {b};
    if x == b {
      if blocks[i] != NULL_BLOCK { assert Node(m, blocks, g, blocks[i]); }
    } else {
      assert x in g.list.Keys + {b};
      assert Node(m, blocks, g, x);
      LinkNext(m, blocks, g, b, i, x);
      LinkPrev(m, blocks, g, b, i, x);
    }
  }

  lemma LinkNext(m: seq<nat>, blocks: seq<nat>, g: Links, b: nat, i: nat, x: nat)
    requires Linked(m, blocks, g) && Spaced(g.list.Keys + {b}) && b !in g.list && i < |blocks|
    requires 3 <= b && b + 3 < |m| && x in g.list && x in g.list.Keys + {b} && b in g.list.Keys + {b}
    requires Head(m, blocks, g, i) && Node(m, blocks, g, x)
    ensures blocks[i] + 3 < |m|
    ensures NextOk(LinkedWords(m, blocks, b, i), Listed(g, b, i), x, g.list[x])
  {
    var c, y := blocks[i], m[x + 2];
    if c != NULL_BLOCK { assert c in g.list.Keys + {b}; }
    if y != NULL_BLOCK { assert Node(m, blocks, g, y) && y in g.list.Keys + {b}; }
  }

  lemma LinkPrev(m: seq<nat>, blocks: seq<nat>, g: Links, b: nat, i: nat, x: nat)
    requires Linked(m, blocks, g) && Spaced(g.list.Keys + {b}) && b !in g.list && i < |blocks|
    requires 3 <= b && b + 3 < |m| && x in g.list && x in g.list.Keys + {b} && b in g.list.Keys + {b}
    requires Head(m, blocks, g, i) && Node(m, blocks, g, x)
    ensures blocks[i] + 3 < |m|
    ensures PrevOk(LinkedWords(m, blocks, b, i), blocks[i := b], Listed(g, b, i), x, g.list[x])
  {
    var c, q := blocks[i], m[x + 3];
    if c != NULL_BLOCK { assert c in g.list.Keys + {b}; }
    if q != NULL_BLOCK { assert Node(m, blocks, g, q) && q in g.list.Keys + {b}; }
  }

  // ---------------------------------------------------------------- the control structure

  function RemovedFrom(c: Control, m: seq<nat>, b: nat, i: nat): (r: Control)
    requires WellSized(c) && b + 3 < |m| && i < LISTS
  {
    if c.blocks[i] == b then
      var c1 := c.(blocks := c.blocks[i := m[b + 2]]);
      if m[b + 2] == NULL_BLOCK then
        var c2 := c1.(slBitmap := c1.slBitmap[i / 32 := ClearBit(c1.slBitmap[i / 32], i % 32)]);
        if c2.slBitmap[i / 32] == 0 then c2.(flBitmap := ClearBit(c2.flBitmap, i / 32)) else c2
      else c1
    else c
  }

  function InsertedInto(c: Control, b: nat, i: nat): (r: Control)
    requires WellSized(c) && i < LISTS
  {
    Control(SetBit(c.flBitmap, i / 32),
            c.slBitmap[i / 32 := SetBit(c.slBitmap[i / 32], i % 32)],
            c.blocks[i := b])
  }

  lemma RemovedMapped(c: Control, m: seq<nat>, b: nat, i: nat)
    requires Mapped(c) && b + 3 < |m| && i < LISTS && b != NULL_BLOCK
    ensures Mapped(RemovedFrom(c, m, b, i))
  {
    if c.blocks[i] == b && m[b + 2] == NULL_BLOCK {
      var r := RemovedFrom(c, m, b, i);
      var fl, sl := i / 32, i % 32;
      var w := ClearBit(c.slBitmap[fl], sl);
      ClearBitBits(c.slBitmap[fl], sl, 0);
      ClearBitBits(c.flBitmap, fl, 0);
      forall k: nat ensures Bit(w, k) <==> k != sl && Bit(c.slBitmap[fl], k) {
        ClearBitBits(c.slBitmap[fl], sl, k);
      }
      assert c.slBitmap[fl] != 0 by { NoBits(c.slBitmap[fl]); }
      forall k: nat ensures Bit(r.flBitmap, k) <==> Bit(c.flBitmap, k) && !(k == fl && w == 0) {
        ClearBitBits(c.flBitmap, fl, k);
      }
    }
  }

  lemma InsertedMapped(c: Control, b: nat, i: nat)
    requires Mapped(c) && i < LISTS && b != NULL_BLOCK
    ensures Mapped(InsertedInto(c, b, i))
  {
    var fl, sl := i / 32, i % 32;
    SetBitBits(c.slBitmap[fl], sl, 0);
    SetBitBits(c.flBitmap, fl, 0);
    forall k: nat ensures Bit(SetBit(c.slBitmap[fl], sl), k) <==> k == sl || Bit(c.slBitmap[fl], k) {
      SetBitBits(c.slBitmap[fl], sl, k);
    }
    forall k: nat ensures Bit(SetBit(c.flBitmap, fl), k) <==> k == fl || Bit(c.flBitmap, k) {
      SetBitBits(c.flBitmap, fl, k);
    }
  }
}
