/** The allocator of src/tlsf.c over an array of 8-byte words.

    A pointer is a word index, an address is 8 times an index, NULL is 0.  The ghost fields give the
    layout the words are meant to have; `Valid` says that they have it. */
module Tlsf {
  import Bits
  import opened TlsfMapping
  import opened TlsfLists
  import opened TlsfTiling
  import opened TlsfState
  import opened TlsfAlign
  import opened TlsfPools
  import opened TlsfPayload
  import opened TlsfCut

  const NULL := 0

  /** What a successful realloc of the block at `p` leaves: a block of the new size at `r` that starts with
      the bytes of the old one, and all other allocated blocks as they were. */
  ghost predicate Reallocated(m: seq<nat>, g: Shape, p: nat, m': seq<nat>, g': Shape, r: nat, size: nat) {
    && 2 <= p && p - 2 in g.span && 2 <= r && r - 2 in g'.span && r - 2 !in Live(g) - {p - 2}
    && Live(g') == (Live(g) - {p - 2})[r - 2 := g'.span[r - 2]]
    && AdjustRequestSize(size, ALIGN_SIZE) <= 8 * g'.span[r - 2] < AdjustRequestSize(size, ALIGN_SIZE) + HEADER_SIZE
    && (size <= SIZE_T - 8 ==> size <= 8 * g'.span[r - 2])
    && SameBytes(m, p, m', r, Least(8 * g.span[p - 2], 8 * g'.span[r - 2], size))
    && Kept(m, m', Live(g) - {p - 2})
  }

  /** A block of at least `adjust` bytes, and hardly more, whose payload is aligned, but for the largest power of
      two, for which it is neither. */
  ghost predicate AlignedBlock(g: Shape, p: nat, adjust: nat, align: nat)
    requires align > 0
  {
    && 2 <= p && p - 2 in g.span
    && ((8 * p) % align == 0 <==> align < ALIGN_MAX)
    && (align < ALIGN_MAX ==> adjust <= 8 * g.span[p - 2] < adjust + HEADER_SIZE)
  }

  /** The block at `p` is live and was not, and nothing else about the live blocks has changed. */
  ghost predicate OneMore(g: Shape, g': Shape, p: nat) {
    2 <= p && p - 2 in g'.span && p - 2 !in Live(g) && Live(g') == Live(g)[p - 2 := g'.span[p - 2]]
  }

  class Allocator {
    const mem: array<nat>
    var ctl: Control
    ghost var g: Shape
    ghost var links: Links

    ghost predicate Ok()
      reads this, mem
    {
      Consistent(mem[..], ctl, g, links)
    }

    ghost predicate Valid()
      reads this, mem
    {
      Sound(mem[..], ctl, g, links)
    }

    /** An empty heap over the given memory, whose first words hold block_null. */
    constructor (memory: array<nat>)
      requires memory.Length >= 4
      modifies memory
      ensures Valid() && mem == memory && g == Shape(map[], {}, map[])
    {
      mem := memory;
      ctl := Control(0, seq(FL_INDEX_COUNT, _ => 0), seq(LISTS, _ => NULL_BLOCK));
      g := Shape(map[], {}, map[]);
      links := Links(map[], map[], 0);
      new;
      mem[NULL_BLOCK + 2] := NULL_BLOCK;
      mem[NULL_BLOCK + 3] := NULL_BLOCK;
      forall i: nat ensures !Bits.Bit(0, i) { Bits.BitZero(i); }
    }

    // ------------------------------------------------------------ words

    method Store(i: nat, v: nat)
      requires i < mem.Length
      modifies mem
      ensures mem[..] == old(mem[..])[i := v]
    {
      mem[i] := v;
    }

    method BlockSetSize(b: nat, size: nat, ghost k: nat)
      requires b + 1 < mem.Length && size == 8 * k
      modifies mem
      ensures mem[..] == old(mem[..])[b + 1 := mem[b + 1]]
      ensures Tagged(mem[b + 1], size, FreeBit(old(mem[b + 1])), PrevFreeBit(old(mem[b + 1])))
    {
      SizeFacts(mem[b + 1], k);
      mem[b + 1] := WithSize(mem[b + 1], size);
    }

    method BlockSetFree(b: nat)
      requires b + 1 < mem.Length
      modifies mem
      ensures mem[..] == old(mem[..])[b + 1 := mem[b + 1]]
      ensures Retagged(old(mem[b + 1]), mem[b + 1], true, PrevFreeBit(old(mem[b + 1])))
    {
      FreeFacts(mem[b + 1]);
      mem[b + 1] := WithFree(mem[b + 1]);
    }

    method BlockSetUsed(b: nat)
      requires b + 1 < mem.Length
      modifies mem
      ensures mem[..] == old(mem[..])[b + 1 := mem[b + 1]]
      ensures Retagged(old(mem[b + 1]), mem[b + 1], false, PrevFreeBit(old(mem[b + 1])))
    {
      FreeFacts(mem[b + 1]);
      mem[b + 1] := WithUsed(mem[b + 1]);
    }

    method BlockSetPrevFree(b: nat)
      requires b + 1 < mem.Length
      modifies mem
      ensures mem[..] == old(mem[..])[b + 1 := mem[b + 1]]
      ensures Retagged(old(mem[b + 1]), mem[b + 1], FreeBit(old(mem[b + 1])), true)
    {
      PrevFreeFacts(mem[b + 1]);
      mem[b + 1] := WithPrevFree(mem[b + 1]);
    }

    method BlockSetPrevUsed(b: nat)
      requires b + 1 < mem.Length
      modifies mem
      ensures mem[..] == old(mem[..])[b + 1 := mem[b + 1]]
      ensures Retagged(old(mem[b + 1]), mem[b + 1], FreeBit(old(mem[b + 1])), false)
    {
      PrevFreeFacts(mem[b + 1]);
      mem[b + 1] := WithPrevUsed(mem[b + 1]);
    }

    /** Location of the block behind `b`. */
    function BlockNext(b: nat): nat
      requires b + 1 < mem.Length
      reads mem
    {
      b + 2 + BlockSize(mem[b + 1]) / 8 - 1
    }

    lemma NextIsNext(b: nat)
      requires Ok() && b in g.span
      ensures Tile(g, mem.Length, b) && Cell(mem[..], g, b)
      ensures BlockNext(b) == Next(g, b) && BlockSize(mem[b + 1]) == 8 * g.span[b]
      ensures g.span[b] > 0 ==> Next(g, b) in g.span && Tile(g, mem.Length, Next(g, b)) && Cell(mem[..], g, Next(g, b))
    {
      assert Tile(g, |mem[..]|, b) && Cell(mem[..], g, b);
      if g.span[b] > 0 { assert Tile(g, |mem[..]|, Next(g, b)) && Cell(mem[..], g, Next(g, b)); }
    }

    // ------------------------------------------------------------ marking

    method BlockMarkAsFree(b: nat, ghost u: map<nat, nat>)
      requires Ok() && b in g.span && b !in g.free && g.span[b] > 0 && Used(g, u) && b !in u
      modifies mem, this`g
      ensures Ok() && g == Freed(old(g), b) && Kept(old(mem[..]), mem[..], u) && Used(g, u)
    {
      NextIsNext(b);
      ghost var m := mem[..];
      var next := BlockNext(b);
      Store(next, b);
      BlockSetPrevFree(next);
      BlockSetFree(b);
      MarkFreeKeeps(m, mem[..], ctl, g, links, b, u);
      g := Freed(g, b);
    }

    method MarkUsedWords(b: nat)
      requires b + 1 < mem.Length && b + 1 < BlockNext(b) && BlockNext(b) + 1 < mem.Length
      modifies mem
      ensures MarkedUsed(old(mem[..]), mem[..], b, old(BlockNext(b)))
    {
      var next := BlockNext(b);
      BlockSetPrevUsed(next);
      BlockSetUsed(b);
    }

    method BlockMarkAsUsed(b: nat, ghost u: map<nat, nat>)
      requires Ok() && b in g.span && b in g.free && b !in links.list && g.span[b] > 0 && Used(g, u)
      modifies mem, this`g
      ensures Ok() && g == Taken(old(g), b) && Kept(old(mem[..]), mem[..], u) && Used(g, u)
    {
      NextIsNext(b);
      ghost var m := mem[..];
      MarkUsedWords(b);
      MarkUsedKeeps(m, mem[..], ctl, g, links, b, u);
      g := Taken(g, b);
    }

    // ------------------------------------------------------------ free lists

    method RemoveFreeBlock(b: nat, cls: Class, ghost u: map<nat, nat>)
      requires Ok() && b in links.list && Used(g, u)
      requires 0 <= cls.fl < FL_INDEX_COUNT && 0 <= cls.sl < SL_INDEX_COUNT && cls.Index() == links.list[b]
      modifies mem, this`ctl, this`links
      ensures Ok() && links == Unlisted(old(links), b) && Kept(old(mem[..]), mem[..], u)
    {
      ghost var m, c := mem[..], ctl;
      RemoveKeeps(m, c, g, links, b, u);
      var prev, next, i := mem[b + 3], mem[b + 2], cls.Index();
      DivMod32(cls.fl, cls.sl);
      Store(next + 3, prev);
      Store(prev + 2, next);
      if ctl.blocks[i] == b {
        ctl := ctl.(blocks := ctl.blocks[i := next]);
        if next == NULL_BLOCK {
          ctl := ctl.(slBitmap := ctl.slBitmap[cls.fl := ClearBit(ctl.slBitmap[cls.fl], cls.sl)]);
          if ctl.slBitmap[cls.fl] == 0 {
            ctl := ctl.(flBitmap := ClearBit(ctl.flBitmap, cls.fl));
          }
        }
      }
      links := Unlisted(links, b);
    }

    method InsertFreeBlock(b: nat, cls: Class, ghost u: map<nat, nat>)
      requires Ok() && b in g.free && b in g.span && b !in links.list && Used(g, u)
      requires 0 <= cls.fl < FL_INDEX_COUNT && 0 <= cls.sl < SL_INDEX_COUNT && cls.Index() == ListOf(g.span[b])
      modifies mem, this`ctl, this`links
      ensures Ok() && links == Listed(old(links), b, cls.Index()) && Kept(old(mem[..]), mem[..], u)
    {
      ghost var m, c := mem[..], ctl;
      InsertKeeps(m, c, g, links, b, u);
      var i := cls.Index();
      DivMod32(cls.fl, cls.sl);
      var current := ctl.blocks[i];
      Store(b + 2, current);
      Store(b + 3, NULL_BLOCK);
      Store(current + 3, b);
      ctl := Control(SetBit(ctl.flBitmap, cls.fl),
                     ctl.slBitmap[cls.fl := SetBit(ctl.slBitmap[cls.fl], cls.sl)],
                     ctl.blocks[i := b]);
      links := Listed(links, b, i);
    }

    method BlockRemove(b: nat, ghost u: map<nat, nat>)
      requires Ok() && b in links.list && Used(g, u)
      modifies mem, this`ctl, this`links
      ensures Ok() && links == Unlisted(old(links), b) && Kept(old(mem[..]), mem[..], u)
    {
      NextIsNext(b);
      assert Placed(g, links, b);
      ClassHoldsSize(8 * g.span[b]);
      RemoveFreeBlock(b, MappingInsert(BlockSize(mem[b + 1])), u);
    }

    method BlockInsert(b: nat, ghost u: map<nat, nat>)
      requires Ok() && b in g.free && b in g.span && b !in links.list && Used(g, u)
      modifies mem, this`ctl, this`links
      ensures Ok() && links.list.Keys == old(links).list.Keys + {b} && Kept(old(mem[..]), mem[..], u)
    {
      NextIsNext(b);
      ClassHoldsSize(8 * g.span[b]);
      InsertFreeBlock(b, MappingInsert(BlockSize(mem[b + 1])), u);
    }

    // ------------------------------------------------------------ splitting

    predicate BlockCanSplit(b: nat, size: nat)
      requires b + 1 < mem.Length
      reads mem
    {
      BlockSize(mem[b + 1]) >= HEADER_SIZE + size
    }

    /** The words block_split writes; the prev-free bit of the rest is whatever the payload held.  The
        ghost numbers are the sizes in words. */
    method BlockSplit(b: nat, size: nat, ghost k: nat, ghost whole: nat) returns (rem: nat)
      requires b + 1 < mem.Length && BlockSize(mem[b + 1]) == 8 * whole && size == 8 * k
      requires 3 <= k && k + 4 <= whole && b + 2 + whole < mem.Length
      modifies mem
      ensures rem == b + 1 + k
      ensures var m, n := old(mem[..]), b + 1 + whole;
        && Same(m, mem[..], {b + 1, rem + 1, n, n + 1})
        && Tagged(mem[b + 1], size, FreeBit(m[b + 1]), PrevFreeBit(m[b + 1]))
        && BlockSize(mem[rem + 1]) == 8 * (n - rem - 1) && FreeBit(mem[rem + 1])
        && mem[n] == rem && Retagged(m[n + 1], mem[n + 1], FreeBit(m[n + 1]), true)
    {
      rem := b + 2 + (size - BLOCK_OVERHEAD) / 8;
      var remainSize := BlockSize(mem[b + 1]) - (size + BLOCK_OVERHEAD);
      ghost var m, n := mem[..], b + 1 + whole;
      BlockSetSize(rem, remainSize, whole - k - 1);
      BlockSetSize(b, size, k);
      var next := BlockNext(rem);
      assert next == n;
      Store(next, rem);
      BlockSetPrevFree(next);
      BlockSetFree(rem);
    }

    /** Split and fix-up of a free block: the rest is tagged from the front. */
    method SplitFreeWords(b: nat, size: nat, ghost k: nat, ghost whole: nat) returns (rem: nat)
      requires b + 1 < mem.Length && BlockSize(mem[b + 1]) == 8 * whole && size == 8 * k
      requires 3 <= k && k + 4 <= whole && b + 2 + whole < mem.Length && FreeBit(mem[b + 1])
      modifies mem
      ensures rem == b + 1 + k && SplitAt(old(mem[..]), mem[..], b, k, b + 1 + whole, true)
    {
      rem := BlockSplit(b, size, k, whole);
      Store(BlockNext(b), b);
      BlockSetPrevFree(rem);
    }

    /** Split and fix-up of an allocated block. */
    method SplitUsedWords(b: nat, size: nat, ghost k: nat, ghost whole: nat) returns (rem: nat)
      requires b + 1 < mem.Length && BlockSize(mem[b + 1]) == 8 * whole && size == 8 * k
      requires 3 <= k && k + 4 <= whole && b + 2 + whole < mem.Length && !FreeBit(mem[b + 1])
      modifies mem
      ensures rem == b + 1 + k && SplitAt(old(mem[..]), mem[..], b, k, b + 1 + whole, false)
    {
      rem := BlockSplit(b, size, k, whole);
      BlockSetPrevUsed(rem);
    }

    method SplitFree(b: nat, size: nat, ghost k: nat, ghost u: map<nat, nat>) returns (rem: nat)
      requires Ok() && b in g.span && b in g.free && b !in links.list && Used(g, u)
      requires size == 8 * k && 3 <= k && k + 4 <= g.span[b]
      modifies mem, this`g
      ensures Ok() && g == Split(old(g), b, k) && rem == b + 1 + k
      ensures Kept(old(mem[..]), mem[..], u) && Used(g, u)
    {
      NextIsNext(b);
      ghost var m := mem[..];
      rem := SplitFreeWords(b, size, k, g.span[b]);
      SplitKeeps(m, mem[..], ctl, g, links, b, k, u);
      g := Split(g, b, k);
    }

    method SplitUsed(b: nat, size: nat, ghost k: nat, ghost u: map<nat, nat>) returns (rem: nat)
      requires Ok() && b in g.span && b !in g.free && b !in links.list && Used(g, u) && (b in u ==> u[b] <= k)
      requires size == 8 * k && 3 <= k && k + 4 <= g.span[b]
      modifies mem, this`g
      ensures Ok() && g == Split(old(g), b, k) && rem == b + 1 + k
      ensures Kept(old(mem[..]), mem[..], u) && Used(g, u)
    {
      NextIsNext(b);
      ghost var m := mem[..];
      rem := SplitUsedWords(b, size, k, g.span[b]);
      SplitKeeps(m, mem[..], ctl, g, links, b, k, u);
      g := Split(g, b, k);
    }

    // ------------------------------------------------------------ absorbing

    method BlockAbsorb(b: nat, q: nat, ghost k: nat, ghost j: nat)
      requires b + 1 < mem.Length && BlockSize(mem[b + 1]) == 8 * k && 3 <= k && q == b + 1 + k
      requires q + 1 < mem.Length && BlockSize(mem[q + 1]) == 8 * j && 3 <= j && q + 2 + j < mem.Length
      modifies mem
      ensures var m, n := old(mem[..]), q + 1 + j;
        && Same(m, mem[..], {b + 1, n}) && mem[n] == b
        && Tagged(mem[b + 1], 8 * (k + 1 + j), FreeBit(m[b + 1]), PrevFreeBit(m[b + 1]))
    {
      SumFacts(mem[b + 1], j + 1);
      Store(b + 1, mem[b + 1] + BlockSize(mem[q + 1]) + BLOCK_OVERHEAD);
      assert BlockNext(b) == q + 1 + j;
      Store(BlockNext(b), b);
    }

    /** Absorption by an allocated block, which then is marked as used again. */
    method AbsorbUsedWords(b: nat, q: nat, ghost k: nat, ghost j: nat)
      requires b + 1 < mem.Length && BlockSize(mem[b + 1]) == 8 * k && 3 <= k && q == b + 1 + k
      requires q + 1 < mem.Length && BlockSize(mem[q + 1]) == 8 * j && 3 <= j && q + 2 + j < mem.Length
      requires !FreeBit(mem[b + 1])
      modifies mem
      ensures AbsorbedAt(old(mem[..]), mem[..], b, q, q + 1 + j, false)
    {
      BlockAbsorb(b, q, k, j);
      var next := BlockNext(b);
      BlockSetPrevUsed(next);
      BlockSetUsed(b);
    }

    lemma AbsorbReady(b: nat, q: nat)
      requires Ok() && b in g.span && g.span[b] > 0 && q == Next(g, b) && q in g.free && q in g.span
      ensures b + 1 < mem.Length && BlockSize(mem[b + 1]) == 8 * g.span[b] && 3 <= g.span[b]
      ensures q + 2 + g.span[q] < mem.Length && BlockSize(mem[q + 1]) == 8 * g.span[q] && 3 <= g.span[q]
      ensures (FreeBit(mem[b + 1]) <==> b in g.free) && PrevFreeBit(mem[q + 2 + g.span[q]])
    {
      NextIsNext(b);
      NextIsNext(q);
    }

    method AbsorbFreeWords(b: nat, q: nat, ghost k: nat, ghost j: nat)
      requires b + 1 < mem.Length && BlockSize(mem[b + 1]) == 8 * k && 3 <= k && q == b + 1 + k
      requires q + 1 < mem.Length && BlockSize(mem[q + 1]) == 8 * j && 3 <= j && q + 2 + j < mem.Length
      requires FreeBit(mem[b + 1]) && PrevFreeBit(mem[q + 2 + j])
      modifies mem
      ensures AbsorbedAt(old(mem[..]), mem[..], b, q, q + 1 + j, true)
    {
      BlockAbsorb(b, q, k, j);
    }

    /** Absorbs the free block behind a free block. */
    method AbsorbFree(b: nat, q: nat, ghost u: map<nat, nat>)
      requires Ok() && b in g.span && b in g.free && b !in links.list && g.span[b] > 0 && Used(g, u)
      requires q == Next(g, b) && q in g.free && q in g.span && q !in links.list
      modifies mem, this`g
      ensures Ok() && g == Absorbed(old(g), b) && Kept(old(mem[..]), mem[..], u) && Used(g, u)
    {
      AbsorbReady(b, q);
      ghost var m := mem[..];
      AbsorbFreeWords(b, q, g.span[b], g.span[q]);
      AbsorbKeeps(m, mem[..], ctl, g, links, b, u);
      g := Absorbed(g, b);
    }

    /** Absorbs the free block behind an allocated block, which stays allocated. */
    method AbsorbUsed(b: nat, q: nat, ghost u: map<nat, nat>)
      requires Ok() && b in g.span && b !in g.free && b !in links.list && g.span[b] > 0 && Used(g, u)
      requires q == Next(g, b) && q in g.free && q in g.span && q !in links.list
      modifies mem, this`g
      ensures Ok() && g == Absorbed(old(g), b) && Kept(old(mem[..]), mem[..], u) && Used(g, u)
    {
      AbsorbReady(b, q);
      ghost var m := mem[..];
      AbsorbUsedWords(b, q, g.span[b], g.span[q]);
      AbsorbKeeps(m, mem[..], ctl, g, links, b, u);
      g := Absorbed(g, b);
    }

    // ------------------------------------------------------------ merging

    /** Merges a block that is not listed with a free block before it. */
    method BlockMergePrev(b: nat, ghost u: map<nat, nat>) returns (r: nat)
      requires Ok() && b in g.span && b in g.free && g.free == links.list.Keys + {b} && b !in links.list
      requires Used(g, u) && Around(g, b)
      modifies mem, this`ctl, this`links, this`g
      ensures Ok() && r in g.span && r in g.free && g.free == links.list.Keys + {r} && r !in links.list
      ensures LeftClean(g, r) && Live(g) == Live(old(g)) && g.pools == old(g).pools
      ensures Kept(old(mem[..]), mem[..], u) && Used(g, u)
    {
      r := b;
      NextIsNext(b);
      if PrevFreeBit(mem[b + 1]) {
        var prev := mem[b];
        MergePrevClean(g, mem.Length, b, prev);
        AbsorbedLive(g, mem.Length, prev);
        BlockRemove(prev, u);
        AbsorbFree(prev, b, u);
        r := prev;
      } else {
        NoFreeBefore(mem[..], g, b);
      }
    }

    /** Merges a block that is not listed with a free block behind it. */
    method BlockMergeNext(b: nat, ghost u: map<nat, nat>)
      requires Ok() && b in g.span && b in g.free && g.free == links.list.Keys + {b} && b !in links.list
      requires Used(g, u) && LeftClean(g, b)
      modifies mem, this`ctl, this`links, this`g
      ensures Ok() && b in g.span && b in g.free && g.free == links.list.Keys + {b} && b !in links.list
      ensures Coalesced(g) && Live(g) == Live(old(g)) && g.pools == old(g).pools
      ensures Kept(old(mem[..]), mem[..], u) && Used(g, u)
    {
      NextIsNext(b);
      var next := BlockNext(b);
      if FreeBit(mem[next + 1]) {
        MergeNextClean(g, mem.Length, b);
        AbsorbedLive(g, mem.Length, b);
        AbsorbListed(b, next, u);
      }
    }

    /** Takes the free block behind `b` out of its list and absorbs it. */
    method AbsorbListed(b: nat, next: nat, ghost u: map<nat, nat>)
      requires Ok() && b in g.span && b in g.free && b !in links.list && g.span[b] > 0 && Used(g, u)
      requires next == Next(g, b) && next in links.list && next in g.free && next in g.span
      modifies mem, this`ctl, this`links, this`g
      ensures Ok() && g == Absorbed(old(g), b) && links == Unlisted(old(links), next)
      ensures Kept(old(mem[..]), mem[..], u) && Used(g, u)
    {
      BlockRemove(next, u);
      AbsorbFree(b, next, u);
    }

    // ------------------------------------------------------------ finding and preparing a block

    /** A free block of at least `size` bytes, taken out of its list; NULL_BLOCK exactly when no free block
        is in a list that is searched. */
    method BlockLocateFree(size: nat, ghost k: nat, ghost u: map<nat, nat>) returns (b: nat)
      requires Ok() && g.free == links.list.Keys && Used(g, u) && size == 8 * k
      modifies mem, this`ctl, this`links
      ensures Ok() && Kept(old(mem[..]), mem[..], u)
      ensures b == NULL_BLOCK ==> mem[..] == old(mem[..]) && ctl == old(ctl) && links == old(links)
      ensures b != NULL_BLOCK <==> k > 0 && HasRoom(g, size)
      ensures b != NULL_BLOCK ==>
        && b in g.span && b in g.free && b !in links.list && g.free == links.list.Keys + {b} && 0 < k <= g.span[b]
        && InLowestList(g, size, b)
    {
      b := NULL_BLOCK;
      if size != 0 {
        var cls := MappingSearch(size);
        ClassHoldsSize(RoundUp(size));
        if cls.fl < FL_INDEX_COUNT {
          var found;
          found, cls := SearchSuitableBlock(ctl, cls);
          if found {
            SearchFinds(mem[..], ctl, g, links, k, cls.Index());
            SearchIsBest(mem[..], ctl, g, links, k, cls.Index());
            b := ctl.blocks[cls.Index()];
            RemoveFreeBlock(b, cls, u);
          } else {
            SearchFails(mem[..], ctl, g, links, k);
          }
        } else {
          NothingSoLarge(mem[..], g, k);
        }
      }
    }

    /** Returns what a free block has beyond `size` to the pool. */
    method BlockTrimFree(b: nat, size: nat, ghost k: nat, ghost u: map<nat, nat>)
      requires Ok() && b in g.span && b in g.free && g.free == links.list.Keys + {b} && b !in links.list
      requires Used(g, u) && OnlyBefore(g, b) && size == 8 * k && 3 <= k
      modifies mem, this`ctl, this`links, this`g
      ensures Ok() && b in g.span && b in g.free && g.free == links.list.Keys + {b} && b !in links.list
      ensures g.span[b] == (if old(g).span[b] >= k + 4 then k else old(g).span[b])
      ensures Coalesced(Taken(g, b)) && Live(g) == Live(old(g)) && g.pools == old(g).pools
      ensures Kept(old(mem[..]), mem[..], u) && Used(g, u)
    {
      TrimReady(b, k);
      if BlockCanSplit(b, size) {
        SplitAndInsert(b, size, k, u);
      }
    }

    method SplitAndInsert(b: nat, size: nat, ghost k: nat, ghost u: map<nat, nat>)
      requires Ok() && b in g.span && b in g.free && g.free == links.list.Keys + {b} && b !in links.list
      requires Used(g, u) && size == 8 * k && 3 <= k && k + 4 <= g.span[b] && b + 1 + k !in g.span
      modifies mem, this`ctl, this`links, this`g
      ensures Ok() && g == Split(old(g), b, k) && g.free == links.list.Keys + {b} && b !in links.list
      ensures Kept(old(mem[..]), mem[..], u) && Used(g, u)
    {
      ghost var keys := links.list.Keys;
      assert b + 1 + k !in keys by { assert keys <= g.free && g.free <= g.span.Keys; }
      var remaining := SplitFree(b, size, k, u);
      BlockInsert(remaining, u);
    }

    lemma TrimReady(b: nat, k: nat)
      requires Ok() && b in g.span && b in g.free && OnlyBefore(g, b) && 3 <= k
      ensures b + 1 < mem.Length && BlockSize(mem[b + 1]) == 8 * g.span[b]
      ensures if g.span[b] >= k + 4
        then b + 1 + k !in g.span && Coalesced(Taken(Split(g, b, k), b)) && Live(Split(g, b, k)) == Live(g)
        else Coalesced(Taken(g, b))
    {
      NextIsNext(b);
      if g.span[b] >= k + 4 {
        DisjointIff(g);
        SplitDisjoint(g, b, k);
        SplitOnlyBefore(g, mem.Length, b, k);
        SplitLive(g, b, k);
      } else {
        TakenOnlyBefore(g, b);
      }
    }

    method BlockPrepareUsed(b: nat, size: nat, ghost k: nat, ghost u: map<nat, nat>) returns (p: nat)
      requires Ok() && b in g.span && b in g.free && g.free == links.list.Keys + {b} && b !in links.list
      requires Used(g, u) && OnlyBefore(g, b) && size == 8 * k && 3 <= k
      modifies mem, this`ctl, this`links, this`g
      ensures Valid() && p == b + 2 && b in g.span && g.pools == old(g).pools
      ensures g.span[b] == (if old(g).span[b] >= k + 4 then k else old(g).span[b])
      ensures b !in Live(old(g)) && Live(g) == Live(old(g))[b := g.span[b]]
      ensures Kept(old(mem[..]), mem[..], u) && Used(g, u)
    {
      BlockTrimFree(b, size, k, u);
      NextIsNext(b);
      TakenLive(g, b);
      BlockMarkAsUsed(b, u);
      p := b + 2;
    }

    /** Returns what an allocated block has beyond `size` to the pool. */
    method BlockTrimUsed(b: nat, size: nat, ghost k: nat, ghost u: map<nat, nat>)
      requires Valid() && b in Live(g) && Used(g, u) && size == 8 * k && 3 <= k
      requires b in u && k + 4 <= g.span[b] ==> u[b] <= k
      modifies mem, this`ctl, this`links, this`g
      ensures Valid() && g.pools == old(g).pools && b in g.span
      ensures g.span[b] == (if old(g).span[b] >= k + 4 then k else old(g).span[b])
      ensures Live(g) == Live(old(g))[b := g.span[b]]
      ensures Kept(old(mem[..]), mem[..], u)
    {
      NextIsNext(b);
      if BlockCanSplit(b, size) {
        SplitUsedReady(b, k);
        var remaining := SplitUsed(b, size, k, u);
        ReturnToPool(remaining, u);
        assert b in Live(g);
      }
    }

    lemma SplitUsedReady(b: nat, k: nat)
      requires Valid() && b in Live(g) && 3 <= k && k + 4 <= g.span[b]
      ensures b + 1 + k !in g.span && b + 1 + k !in links.list && b !in links.list
      ensures LeftClean(Split(g, b, k), b + 1 + k) && Live(Split(g, b, k)) == Live(g)[b := k]
    {
      DisjointIff(g);
      SplitDisjoint(g, b, k);
      SplitLeftClean(g, mem.Length, b, k);
      SplitUsedLive(g, b, k);
    }

    /** Merges a fresh free block with the one behind it, and lists it. */
    method ReturnToPool(b: nat, ghost u: map<nat, nat>)
      requires Ok() && b in g.span && b in g.free && g.free == links.list.Keys + {b} && b !in links.list
      requires Used(g, u) && LeftClean(g, b)
      modifies mem, this`ctl, this`links, this`g
      ensures Valid() && Live(g) == Live(old(g)) && g.pools == old(g).pools && Kept(old(mem[..]), mem[..], u)
    {
      BlockMergeNext(b, u);
      BlockInsert(b, u);
    }

    /** Cuts `size` bytes off the front of a free block and returns them to the pool as a block. */
    method BlockTrimFreeLeading(b: nat, size: nat, ghost j: nat, ghost u: map<nat, nat>) returns (r: nat)
      requires Ok() && b in g.span && b in g.free && g.free == links.list.Keys + {b} && b !in links.list
      requires Used(g, u) && Coalesced(g) && size == 8 * j && 4 <= j
      modifies mem, this`ctl, this`links, this`g
      ensures Ok() && r in g.span && r in g.free && g.free == links.list.Keys + {r} && r !in links.list
      ensures OnlyBefore(g, r) && Live(g) == Live(old(g)) && g.pools == old(g).pools
      ensures if old(g).span[b] >= j + 4 then r == b + j && g.span[r] == old(g).span[b] - j else r == b && g == old(g)
      ensures Kept(old(mem[..]), mem[..], u) && Used(g, u)
    {
      NextIsNext(b);
      r := b;
      if BlockCanSplit(b, size) {
        r := SplitLeading(b, size, j, u);
      } else {
        CoalescedOnlyBefore(g, b);
      }
    }

    method SplitLeading(b: nat, size: nat, ghost j: nat, ghost u: map<nat, nat>) returns (r: nat)
      requires Ok() && b in g.span && b in g.free && g.free == links.list.Keys + {b} && b !in links.list
      requires Used(g, u) && Coalesced(g) && size == 8 * j && 4 <= j && j + 4 <= g.span[b]
      modifies mem, this`ctl, this`links, this`g
      ensures Ok() && r == b + j && r in g.span && r in g.free && g.free == links.list.Keys + {r} && r !in links.list
      ensures OnlyBefore(g, r) && Live(g) == Live(old(g)) && g.pools == old(g).pools
      ensures g.span[r] == old(g).span[b] - j
      ensures Kept(old(mem[..]), mem[..], u) && Used(g, u)
    {
      SplitLeadingReady(b, j - 1);
      r := SplitFree(b, size - BLOCK_OVERHEAD, j - 1, u);
      BlockInsert(b, u);
    }

    lemma SplitLeadingReady(b: nat, k: nat)
      requires Ok() && Coalesced(g) && b in g.free && b in g.span && 3 <= k && k + 4 <= g.span[b]
      ensures b + 1 + k !in g.span && b + 1 + k !in links.list
      ensures OnlyBefore(Split(g, b, k), b + 1 + k) && Live(Split(g, b, k)) == Live(g)
      ensures var rest, after := b + 1 + k, Split(g, b, k);
        && rest in after.span && rest in after.free && after.span[rest] == g.span[b] - k - 1
        && b in after.free && b in after.span && after.free == g.free + {rest} && after.pools == g.pools
    {
      DisjointIff(g);
      SplitDisjoint(g, b, k);
      LeadingOnlyBefore(g, mem.Length, b, k);
      SplitLive(g, b, k);
    }

    /** Allocates at least `size` bytes, or returns NULL and changes nothing. */
    method Malloc(size: nat) returns (p: nat)
      requires Valid() && size < SIZE_T
      modifies mem, this`ctl, this`links, this`g
      ensures Valid() && g.pools == old(g).pools
      ensures Kept(old(mem[..]), mem[..], Live(old(g)))
      ensures p == NULL ==> g == old(g) && mem[..] == old(mem[..])
      ensures var adjust := AdjustRequestSize(size, ALIGN_SIZE); p != NULL <==> 0 < adjust && HasRoom(old(g), adjust)
      ensures p != NULL ==>
        && OneMore(old(g), g, p)
        && AdjustRequestSize(size, ALIGN_SIZE) <= 8 * g.span[p - 2] < AdjustRequestSize(size, ALIGN_SIZE) + HEADER_SIZE
        && 0 < size && (size <= SIZE_T - 8 ==> size <= 8 * g.span[p - 2])
      ensures p != NULL ==> InLowestList(old(g), AdjustRequestSize(size, ALIGN_SIZE), p - 2)
    {
      var adjust := AdjustRequestSize(size, ALIGN_SIZE);
      AdjustedIsLegal(size);
      if size > 0 { AdjustMeetsRequest(size, ALIGN_SIZE); }
      ghost var k, u := adjust / 8, Live(g);
      var block := BlockLocateFree(adjust, k, u);
      if block == NULL_BLOCK { return NULL; }
      CoalescedOnlyBefore(g, block);
      p := BlockPrepareUsed(block, adjust, k, u);
    }

    /** Frees an allocated block. */
    method Free(p: nat)
      requires Valid() && (p != NULL ==> 2 <= p && p - 2 in Live(g))
      modifies mem, this`ctl, this`links, this`g
      ensures Valid() && g.pools == old(g).pools
      ensures p == NULL ==> g == old(g) && mem[..] == old(mem[..])
      ensures p != NULL ==> Live(g) == Live(old(g)) - {p - 2}
      ensures Kept(old(mem[..]), mem[..], Live(g))
    {
      if p != NULL {
        var b := p - 2;
        ghost var u := Live(g) - {b};
        FreedAround(g, b);
        FreedLive(g, b);
        BlockMarkAsFree(b, u);
        b := BlockMergePrev(b, u);
        ReturnToPool(b, u);
      }
    }

    // ------------------------------------------------------------ aligned allocation

    /** Allocates at least `size` bytes at a multiple of `align`.  For the largest power of two the
        reserve wraps around, and the block that is returned is neither aligned nor large enough. */
    method Memalign(align: nat, size: nat, ghost k: nat) returns (p: nat)
      requires Valid() && size < SIZE_T && k < 64 && align == Bits.Pow2(k) && 8 * mem.Length <= ADDRESS_LIMIT
      modifies mem, this`ctl, this`links, this`g
      ensures Valid() && g.pools == old(g).pools
      ensures Kept(old(mem[..]), mem[..], Live(old(g)))
      ensures p == NULL ==> g == old(g) && mem[..] == old(mem[..])
      ensures align > 0
      ensures var total := AlignedSize(AdjustRequestSize(size, ALIGN_SIZE), align); p != NULL <==>
        0 < total && HasRoom(old(g), total)
      ensures p != NULL ==> OneMore(old(g), g, p)
      ensures p != NULL ==> AlignedBlock(g, p, AdjustRequestSize(size, ALIGN_SIZE), align)
      ensures p != NULL ==> InBestBlock(old(g), AlignedSize(AdjustRequestSize(size, ALIGN_SIZE), align), p)
    {
      var adjust := AdjustRequestSize(size, ALIGN_SIZE);
      AdjustedIsLegal(size);
      AlignedSizeFits(adjust, k);
      var alignedSize := AlignedSize(adjust, align);
      ghost var u := Live(g);
      var block := BlockLocateFree(alignedSize, alignedSize / 8, u);
      if block == NULL_BLOCK { return NULL; }
      p := PlaceAligned(block, align, adjust, k, adjust / 8, u, alignedSize);
    }

    /** Uses a located block from the first suitable aligned address on. */
    method PlaceAligned(b: nat, align: nat, adjust: nat, ghost k: nat, ghost words: nat, ghost u: map<nat, nat>,
        ghost total: nat)
      returns (p: nat)
      requires Ok() && b in g.span && b in g.free && g.free == links.list.Keys + {b} && b !in links.list
      requires Used(g, u) && Coalesced(g) && g.span[b] > 0 && adjust == 8 * words && 3 <= words
      requires k < 64 && align == Bits.Pow2(k) && 8 * mem.Length <= ADDRESS_LIMIT && Reserved(adjust, 8 * g.span[b], k)
      modifies mem, this`ctl, this`links, this`g
      ensures Valid() && g.pools == old(g).pools && Kept(old(mem[..]), mem[..], u) && 0 < align
      ensures OneMore(old(g), g, p)
      ensures AlignedBlock(g, p, adjust, align)
      ensures InLowestList(old(g), total, b) ==> InBestBlock(old(g), total, p)
    {
      ghost var g0 := g;
      NextIsNext(b);
      ghost var j, q := GapWords(b, g.span[b], words, k);
      p := PlaceBehindGap(b, Gap(8 * (b + 2), align), adjust, j, words, u);
      assert p == q;
      if InLowestList(g0, total, b) { WithinBest(g0, total, b, p); }
    }

    /** Gives the gap back and prepares the rest; when the gap cannot be split off, the block itself. */
    method PlaceBehindGap(b: nat, gap: nat, adjust: nat, ghost j: nat, ghost k: nat, ghost u: map<nat, nat>)
      returns (p: nat)
      requires Ok() && b in g.span && b in g.free && g.free == links.list.Keys + {b} && b !in links.list
      requires Used(g, u) && Coalesced(g) && gap == 8 * j && (gap == 0 || 4 <= j) && adjust == 8 * k && 3 <= k
      modifies mem, this`ctl, this`links, this`g
      ensures Valid() && g.pools == old(g).pools && Kept(old(mem[..]), mem[..], u)
      ensures p == b + 2 + (if j == 0 || old(g).span[b] >= j + 4 then j else 0)
      ensures p - 2 in g.span && p - 2 !in Live(old(g)) && Live(g) == Live(old(g))[p - 2 := g.span[p - 2]]
      ensures (j == 0 || old(g).span[b] >= j + 4) && old(g).span[b] - j >= k ==> k <= g.span[p - 2] < k + 4
    {
      var block := b;
      if gap != 0 {
        block := BlockTrimFreeLeading(b, gap, j, u);
      } else {
        CoalescedOnlyBefore(g, b);
      }
      p := BlockPrepareUsed(block, adjust, k, u);
    }

    // ------------------------------------------------------------ reallocation

    /** memcpy between two allocated blocks: whole words, and the low bytes of one more. */
    method CopyBytes(into: nat, from: nat, n: nat)
      requires into + (n + 7) / 8 <= mem.Length && from + (n + 7) / 8 <= mem.Length
      requires into + (n + 7) / 8 <= from || from + (n + 7) / 8 <= into
      modifies mem
      ensures SameBytes(old(mem[..]), from, mem[..], into, n)
      ensures forall i :: 0 <= i < mem.Length && !(into <= i < into + (n + 7) / 8) ==> mem[i] == old(mem[i])
    {
      ghost var m := mem[..];
      var words, rest := n / 8, n % 8;
      forall i | into <= i < into + words { mem[i] := mem[from + (i - into)]; }
      if rest > 0 {
        mem[into + words] := Blend(mem[into + words], mem[from + words], rest);
      }
      CopiedBytes(m, from, mem[..], into, n);
    }

    /** Copies the first `n` bytes of a live block into another one. */
    method CopyPayload(q: nat, p: nat, n: nat)
      requires Valid() && 2 <= p && 2 <= q && p - 2 in Live(g) && q - 2 in Live(g) && p != q
      requires n <= 8 * g.span[p - 2] && n <= 8 * g.span[q - 2]
      modifies mem
      ensures Valid() && SameBytes(old(mem[..]), p, mem[..], q, n)
      ensures Kept(old(mem[..]), mem[..], Live(g) - {q - 2})
    {
      NextIsNext(p - 2);
      NextIsNext(q - 2);
      PayloadsApart(p - 2, q - 2);
      ghost var m := mem[..];
      CopyBytes(q, p, n);
      PayloadKeeps(m, mem[..], ctl, g, links, q - 2);
    }

    lemma PayloadsApart(b: nat, c: nat)
      requires Ok() && b in Live(g) && c in Live(g) && b != c
      ensures b + 2 + g.span[b] <= c + 2 || c + 2 + g.span[c] <= b + 2
    {
      assert Ahead(g, b) && Ahead(g, c);
    }

    method CopyAndFree(p: nat, r: nat, n: nat)
      requires Valid() && 2 <= p && 2 <= r && p - 2 in Live(g) && r - 2 in Live(g) && p != r
      requires n <= 8 * g.span[p - 2] && n <= 8 * g.span[r - 2]
      modifies mem, this`ctl, this`links, this`g
      ensures Valid() && g.pools == old(g).pools && Live(g) == Live(old(g)) - {p - 2}
      ensures SameBytes(old(mem[..]), p, mem[..], r, n)
      ensures Kept(old(mem[..]), mem[..], Live(old(g)) - {p - 2} - {r - 2})
    {
      NextIsNext(r - 2);
      ghost var m, live := mem[..], Live(g);
      CopyPayload(r, p, n);
      ghost var m1 := mem[..];
      Free(p);
      CopiedAndFreed(m, m1, mem[..], live, p, r, n);
    }

    /** Allocates a new block, copies, and frees the old one. */
    method MoveBlock(p: nat, size: nat) returns (r: nat)
      requires Valid() && 2 <= p && p - 2 in Live(g) && 0 < size < SIZE_T
      requires 8 * g.span[p - 2] < AdjustRequestSize(size, ALIGN_SIZE)
      modifies mem, this`ctl, this`links, this`g
      ensures Valid() && g.pools == old(g).pools
      ensures r == NULL ==> g == old(g) && mem[..] == old(mem[..])
      ensures r != NULL ==> Reallocated(old(mem[..]), old(g), p, mem[..], g, r, size)
      ensures r == NULL <==> !HasRoom(old(g), AdjustRequestSize(size, ALIGN_SIZE))
      ensures r != p
    {
      NextIsNext(p - 2);
      AdjustIsZero(size);
      ghost var m, live := mem[..], Live(g);
      var cursize := BlockSize(mem[p - 1]);
      r := Malloc(size);
      if r != NULL {
        ghost var m1, live1 := mem[..], Live(g);
        var minsize := if cursize < size then cursize else size;
        CopyAndFree(p, r, minsize);
        assert r - 2 in Live(g);
        MovedBytes(m, m1, mem[..], live, live1, p, r, minsize);
      }
    }

    /** Grows an allocated block over the free block behind it if it has to, and trims what is too much. */
    method ResizeInPlace(p: nat, adjust: nat, ghost k: nat)
      requires Valid() && 2 <= p && p - 2 in Live(g) && adjust == 8 * k && 3 <= k
      requires k <= g.span[p - 2] ||
        (Next(g, p - 2) in g.free && Next(g, p - 2) in g.span && k <= g.span[p - 2] + 1 + g.span[Next(g, p - 2)])
      modifies mem, this`ctl, this`links, this`g
      ensures Valid() && g.pools == old(g).pools && p - 2 in g.span && k <= g.span[p - 2] < k + 4
      ensures Live(g) == Live(old(g))[p - 2 := g.span[p - 2]]
      ensures Kept(old(mem[..]), mem[..], Shrunk(Live(old(g)), p - 2, g.span[p - 2]))
    {
      ghost var live := Live(g);
      NextIsNext(p - 2);
      if adjust > BlockSize(mem[p - 1]) {
        GrowInPlace(p - 2, live);
      }
      TrimInPlace(p - 2, adjust, k, live);
    }

    method TrimInPlace(b: nat, adjust: nat, ghost k: nat, ghost u: map<nat, nat>)
      requires Valid() && b in Live(g) && Used(g, u) && b in u && adjust == 8 * k && 3 <= k <= g.span[b]
      modifies mem, this`ctl, this`links, this`g
      ensures Valid() && g.pools == old(g).pools && b in g.span && k <= g.span[b] < k + 4
      ensures Live(g) == Live(old(g))[b := g.span[b]]
      ensures Kept(old(mem[..]), mem[..], Shrunk(u, b, g.span[b]))
    {
      ghost var n := if g.span[b] >= k + 4 then k else g.span[b];
      BlockTrimUsed(b, adjust, k, Shrunk(u, b, n));
    }

    /** Absorbs the free block behind an allocated one. */
    method GrowInPlace(b: nat, ghost u: map<nat, nat>)
      requires Valid() && b in Live(g) && Next(g, b) in g.free && Next(g, b) in g.span && Used(g, u)
      modifies mem, this`ctl, this`links, this`g
      ensures Valid() && g.pools == old(g).pools && Kept(old(mem[..]), mem[..], u) && Used(g, u)
      ensures Live(g) == Live(old(g))[b := old(g).span[b] + 1 + old(g).span[Next(old(g), b)]]
    {
      NextIsNext(b);
      AbsorbUsedClean(g, mem.Length, b);
      var next := BlockNext(b);
      BlockRemove(next, u);
      AbsorbUsed(b, next, u);
    }

    method ResizeBlock(p: nat, size: nat, adjust: nat, ghost k: nat)
      requires Valid() && 2 <= p && p - 2 in Live(g) && adjust == 8 * k && 3 <= k
      requires adjust == AdjustRequestSize(size, ALIGN_SIZE) && (size <= SIZE_T - 8 ==> size <= adjust)
      requires k <= g.span[p - 2] ||
        (Next(g, p - 2) in g.free && Next(g, p - 2) in g.span && k <= g.span[p - 2] + 1 + g.span[Next(g, p - 2)])
      modifies mem, this`ctl, this`links, this`g
      ensures Valid() && g.pools == old(g).pools
      ensures Reallocated(old(mem[..]), old(g), p, mem[..], g, p, size)
    {
      NextIsNext(p - 2);
      ghost var m, live := mem[..], Live(g);
      ResizeInPlace(p, adjust, k);
      NextIsNext(p - 2);
      ResizedBytes(m, mem[..], live, p, g.span[p - 2], size);
    }

    /** block_split at size 0, and the fix-up for an allocated block: the address of the rest wraps around to
        the second header word. */
    method CutBlock(b: nat, ghost whole: nat)
      requires b + 1 < mem.Length && BlockSize(mem[b + 1]) == 8 * whole && 4 <= whole && b + 2 + whole < mem.Length
      requires !FreeBit(mem[b + 1])
      modifies mem
      ensures CutWords(old(mem[..]), mem[..], b, b + 1 + whole)
    {
      var rem := b + 2 - BLOCK_OVERHEAD / 8;
      var remainSize := BlockSize(mem[b + 1]) - BLOCK_OVERHEAD;
      BlockSetSize(rem, remainSize, whole - 1);
      BlockSetSize(b, 0, 0);
      var next := BlockNext(rem);
      assert next == b + 1 + whole;
      Store(next, rem);
      BlockSetPrevFree(next);
      BlockSetFree(rem);
      BlockSetPrevUsed(rem);
    }

    /** block_trim_used at size 0. */
    method BlockTrimToNothing(b: nat)
      requires Valid() && b in Live(g)
      modifies mem, this`ctl, this`links, this`g
      ensures Valid() && TrimmedToNothing(old(mem[..]), old(g), b + 2, mem[..], g)
    {
      NextIsNext(b);
      if BlockCanSplit(b, 0) {
        ghost var s := OwnPool(g, mem.Length, b);
        CutAndReturn(b, s);
        assert Pool(g, s);
        NextIsNext(b);
      }
    }

    method CutAndReturn(b: nat, ghost s: nat)
      requires Valid() && b in Live(g) && 4 <= g.span[b] && s in g.pools && s <= b < g.pools[s]
      modifies mem, this`ctl, this`links, this`g
      ensures Valid() && Live(g) == Live(old(g)) - {b} && Kept(old(mem[..]), mem[..], Live(g))
      ensures g.pools == old(g).pools[s := b][b + 1 := old(g).pools[s]]
    {
      NextIsNext(b);
      ghost var m, u := mem[..], Live(g) - {b};
      CutBlock(b, g.span[b]);
      CutKeeps(m, mem[..], ctl, g, links, s, b);
      assert b + 1 !in links.list;
      g := CutAt(g, s, b);
      ReturnToPool(b + 1, u);
    }

    lemma OversizeIsLess(b: nat, size: nat)
      requires Ok() && b in g.span && AdjustRequestSize(size, ALIGN_SIZE) == 0 && 0 < size < SIZE_T
      ensures 8 * g.span[b] < size
    {
      NextIsNext(b);
      AdjustIsZero(size);
    }

    method ReallocBlock(p: nat, size: nat) returns (r: nat)
      requires Valid() && 2 <= p && p - 2 in Live(g) && 0 < size < SIZE_T
      modifies mem, this`ctl, this`links, this`g
      ensures Valid()
      ensures r == NULL <==> Stuck(old(g), p - 2, AdjustRequestSize(size, ALIGN_SIZE))
      ensures r == p <==> !MustMove(old(g), p - 2, AdjustRequestSize(size, ALIGN_SIZE))
      ensures r == NULL ==> g == old(g) && mem[..] == old(mem[..])
      ensures AdjustRequestSize(size, ALIGN_SIZE) != 0 ==> g.pools == old(g).pools
      ensures AdjustRequestSize(size, ALIGN_SIZE) != 0 && r != NULL ==>
        Reallocated(old(mem[..]), old(g), p, mem[..], g, r, size)
      ensures AdjustRequestSize(size, ALIGN_SIZE) == 0 ==>
        r == p && TrimmedToNothing(old(mem[..]), old(g), p, mem[..], g)
    {
      NextIsNext(p - 2);
      NextIsNext(Next(g, p - 2));
      AdjustedIsLegal(size);
      var block := p - 2;
      var next := BlockNext(block);
      var cursize := BlockSize(mem[block + 1]);
      var combined := cursize + BlockSize(mem[next + 1]) + BLOCK_OVERHEAD;
      var adjust := AdjustRequestSize(size, ALIGN_SIZE);
      if adjust > cursize && (!FreeBit(mem[next + 1]) || adjust > combined) {
        r := MoveBlock(p, size);
      } else {
        // The code grows if it has to and calls block_trim_used, whatever `adjust` is.
        if adjust == 0 {
          BlockTrimToNothing(block);
        } else {
          ResizeBlock(p, size, adjust, adjust / 8);
        }
        r := p;
      }
    }

    /** Changes the size of an allocated block: in place if it fits, else by moving it.  A size that adjusts
        to 0 is not refused: the pointer comes back, with less behind it than was asked for. */
    method Realloc(p: nat, size: nat) returns (r: nat)
      requires Valid() && size < SIZE_T && (p != NULL ==> 2 <= p && p - 2 in Live(g))
      modifies mem, this`ctl, this`links, this`g
      ensures Valid()
      ensures p == NULL || size == 0 || AdjustRequestSize(size, ALIGN_SIZE) != 0 ==> g.pools == old(g).pools
      ensures p != NULL && size == 0 ==>
        r == NULL && Live(g) == Live(old(g)) - {p - 2} && Kept(old(mem[..]), mem[..], Live(g))
      ensures p == NULL && r != NULL ==>
        && 2 <= r && r - 2 in g.span && r - 2 !in Live(old(g)) && Live(g) == Live(old(g))[r - 2 := g.span[r - 2]]
        && AdjustRequestSize(size, ALIGN_SIZE) <= 8 * g.span[r - 2] < AdjustRequestSize(size, ALIGN_SIZE) + HEADER_SIZE
        && Kept(old(mem[..]), mem[..], Live(old(g)))
      ensures r == NULL && (p == NULL || size != 0) ==> g == old(g) && mem[..] == old(mem[..])
      ensures p != NULL && size != 0 ==> (r == NULL <==> Stuck(old(g), p - 2, AdjustRequestSize(size, ALIGN_SIZE)))
      ensures p != NULL && size != 0 ==> (r == p <==> !MustMove(old(g), p - 2, AdjustRequestSize(size, ALIGN_SIZE)))
      ensures p != NULL && r != NULL && AdjustRequestSize(size, ALIGN_SIZE) != 0 ==>
        Reallocated(old(mem[..]), old(g), p, mem[..], g, r, size)
      ensures p != NULL && size != 0 && AdjustRequestSize(size, ALIGN_SIZE) == 0 ==>
        r == p && TrimmedToNothing(old(mem[..]), old(g), p, mem[..], g)
      ensures p != NULL && r != NULL && size <= SIZE_T - 8 ==>
        2 <= r && r - 1 < mem.Length && (size <= BlockSize(mem[r - 1]) <==> AdjustRequestSize(size, ALIGN_SIZE) != 0)
    {
      if p != NULL && size == 0 {
        Free(p);
        r := NULL;
      } else if p == NULL {
        r := Malloc(size);
      } else {
        if AdjustRequestSize(size, ALIGN_SIZE) == 0 { OversizeIsLess(p - 2, size); }
        NextIsNext(p - 2);
        r := ReallocBlock(p, size);
        if r != NULL && r - 2 in g.span { NextIsNext(r - 2); }
      }
    }

    // ------------------------------------------------------------ pools

    method MakeFirstBlock(b: nat, ghost n: nat, poolBytes: nat)
      requires poolBytes == 8 * n && b + 1 < mem.Length
      modifies mem
      ensures Same(old(mem[..]), mem[..], {b + 1}) && Tagged(mem[b + 1], 8 * n, true, false)
    {
      BlockSetSize(b, poolBytes, n);
      BlockSetFree(b);
      BlockSetPrevUsed(b);
    }

    method MakeSentinel(b: nat, next: nat)
      requires next + 1 < mem.Length
      modifies mem
      ensures Same(old(mem[..]), mem[..], {next, next + 1}) && mem[next] == b && Tagged(mem[next + 1], 0, false, true)
    {
      Store(next, b);
      BlockSetSize(next, 0, 0);
      BlockSetUsed(next);
      BlockSetPrevFree(next);
    }

    /** Writes the headers of a new pool: one free block and a used sentinel of size 0.  The code lists the
        block before it writes the sentinel; the words are different ones. */
    method MakePool(b: nat, ghost n: nat, poolBytes: nat)
      requires poolBytes == 8 * n && 3 <= n && b + n + 2 < mem.Length
      modifies mem
      ensures PoolWords(old(mem[..]), mem[..], b, n)
    {
      MakeFirstBlock(b, n, poolBytes);
      MakeSentinel(b, BlockNext(b));
    }

    /** Hands a region to the allocator, or returns NULL and changes nothing.  The size test lets 2^32
        through, for which there is no list; that is left to the caller. */
    method AddPool(address: nat, bytes: nat) returns (pool: nat)
      requires Valid() && bytes < SIZE_T
      requires AcceptsPool(address, bytes) ==>
        PoolSize(bytes) < BLOCK_SIZE_MAX && Vacant(g, mem.Length, address / 8, bytes / 8)
      modifies mem, this`ctl, this`links, this`g
      ensures Valid() && Live(g) == Live(old(g)) && Kept(old(mem[..]), mem[..], Live(g))
      ensures if AcceptsPool(address, bytes)
        then pool == address / 8 && pool >= 5 && g == PoolAdded(old(g), pool - 1, PoolSize(bytes) / 8)
        else pool == NULL && g == old(g) && mem[..] == old(mem[..])
    {
      var poolBytes := PoolSize(bytes);
      if address % ALIGN_SIZE != 0 { return NULL; }
      if poolBytes < BLOCK_SIZE_MIN || poolBytes > BLOCK_SIZE_MAX { return NULL; }
      PoolSizeWords(bytes);
      pool := address / 8;
      InstallPool(pool - 1, poolBytes / 8, poolBytes);
    }

    method InstallPool(b: nat, ghost n: nat, poolBytes: nat)
      requires Valid() && poolBytes == 8 * n && 3 <= n && poolBytes < BLOCK_SIZE_MAX
      requires Vacant(g, mem.Length, b + 1, n + 2)
      modifies mem, this`ctl, this`links, this`g
      ensures Valid() && Live(g) == Live(old(g)) && Kept(old(mem[..]), mem[..], Live(g))
      ensures g == PoolAdded(old(g), b, n)
    {
      ghost var m, u := mem[..], Live(g);
      MakePool(b, n, poolBytes);
      AddedKeeps(m, mem[..], ctl, g, links, b, n);
      AddedKept(m, mem[..], g, b, n);
      AddedCoalesced(g, mem.Length, b, n);
      g := PoolAdded(g, b, n);
      BlockInsert(b, u);
    }

    /** Takes a pool back; it has to be one free block, as it is when nothing in it is allocated. */
    method RemovePool(pool: nat)
      requires Valid() && 1 <= pool && Emptied(g, pool - 1)
      modifies mem, this`ctl, this`links, this`g
      ensures Valid() && Live(g) == Live(old(g)) && Kept(old(mem[..]), mem[..], Live(g))
      ensures g == PoolRemoved(old(g), pool - 1)
    {
      var b := pool - 1;
      ghost var u := Live(g);
      BlockRemove(b, u);
      RemovedKeeps(mem[..], ctl, g, links, b);
      RemovedCoalesced(g, mem.Length, b);
      g := PoolRemoved(g, b);
    }

    // ------------------------------------------------------------ the checks of the original

    lemma FreeBlockPasses(b: nat)
      requires Valid() && b in links.list
      ensures b + 3 < mem.Length && FreeBit(mem[b + 1]) && !PrevFreeBit(mem[b + 1]) && BlockNext(b) + 1 < mem.Length
      ensures !FreeBit(mem[BlockNext(b) + 1]) && PrevFreeBit(mem[BlockNext(b) + 1])
      ensures BlockSize(mem[b + 1]) >= BLOCK_SIZE_MIN
      ensures MappingInsert(BlockSize(mem[b + 1])).Index() == links.list[b] < LISTS && b in links.stamp
      ensures 0 <= MappingInsert(BlockSize(mem[b + 1])).sl < 32
      ensures mem[b + 2] == NULL_BLOCK || (mem[b + 2] in links.list && links.list[mem[b + 2]] == links.list[b]
        && mem[b + 2] in links.stamp && links.stamp[mem[b + 2]] < links.stamp[b])
    {
      NextIsNext(b);
      assert Placed(g, links, b) && Lone(g, b) && Node(mem[..], ctl.blocks, links, b);
      ClassHoldsSize(8 * g.span[b]);
      assert mem[b] in g.free ==> Lone(g, mem[b]);
    }

    /** The walk of tlsf_check along one list. */
    method CheckList(fl: nat, sl: nat) returns (status: int)
      requires Valid() && fl < FL_INDEX_COUNT && sl < SL_INDEX_COUNT
      ensures status == 0
    {
      status := 0;
      var block := ctl.blocks[fl * SL_INDEX_COUNT + sl];
      assert Head(mem[..], ctl.blocks, links, fl * 32 + sl);
      while block != NULL_BLOCK
        invariant block == NULL_BLOCK ||
          (block in links.list && block in links.stamp && links.list[block] == fl * 32 + sl)
        invariant status == 0
        decreases if block == NULL_BLOCK then 0 else 1 + links.stamp[block]
      {
        FreeBlockPasses(block);
        if !FreeBit(mem[block + 1]) { status := status - 1; }
        if PrevFreeBit(mem[block + 1]) { status := status - 1; }
        if FreeBit(mem[BlockNext(block) + 1]) { status := status - 1; }
        if !PrevFreeBit(mem[BlockNext(block) + 1]) { status := status - 1; }
        if BlockSize(mem[block + 1]) < BLOCK_SIZE_MIN { status := status - 1; }
        var cls := MappingInsert(BlockSize(mem[block + 1]));
        if !(cls.fl == fl && cls.sl == sl) { status := status - 1; }
        block := mem[block + 2];
      }
    }

    lemma ListFlags(fl: nat, sl: nat)
      requires Valid() && fl < FL_INDEX_COUNT && sl < SL_INDEX_COUNT
      ensures Bits.And(ctl.slBitmap[fl], Bits.Pow2(sl)) != 0 <==> ctl.blocks[fl * 32 + sl] != NULL_BLOCK
      ensures Bits.And(ctl.slBitmap[fl], Bits.Pow2(sl)) != 0 ==> ctl.slBitmap[fl] != 0
      ensures Bits.And(ctl.flBitmap, Bits.Pow2(fl)) == 0 ==> Bits.And(ctl.slBitmap[fl], Bits.Pow2(sl)) == 0
    {
      DivMod32(fl, sl);
      TestBit(ctl.slBitmap[fl], sl);
      TestBit(ctl.flBitmap, fl);
      Bits.BitZero(sl);
    }

    /** tlsf_check finds nothing wrong with a heap that has the invariant. */
    method Check() returns (status: int)
      requires Valid()
      ensures status == 0
    {
      status := 0;
      for i := 0 to FL_INDEX_COUNT
        invariant status == 0
      {
        for j := 0 to SL_INDEX_COUNT
          invariant status == 0
        {
          ListFlags(i, j);
          var flMap := Bits.And(ctl.flBitmap, Bits.Pow2(i));
          var slList := ctl.slBitmap[i];
          var slMap := Bits.And(slList, Bits.Pow2(j));
          var block := ctl.blocks[i * SL_INDEX_COUNT + j];
          if flMap == 0 && slMap != 0 { status := status - 1; }
          if slMap == 0 {
            if block != NULL_BLOCK { status := status - 1; }
          } else {
            if slList == 0 { status := status - 1; }
            if block == NULL_BLOCK { status := status - 1; }
            var s := CheckList(i, j);
            status := status + s;
          }
        }
      }
    }

    /** The blocks of a pool in order; their sizes and headers always add up to the same total. */
    method WalkPool(pool: nat) returns (v: seq<Visit>)
      requires Valid() && 1 <= pool && pool - 1 in g.pools
      ensures Walked(g, pool - 1, g.pools[pool - 1], v)
      ensures TotalBytes(v) == 8 * (g.pools[pool - 1] - (pool - 1))
    {
      var block := pool - 1;
      ghost var s := pool - 1;
      v := [];
      assert Pool(g, s);
      NextIsNext(block);
      while BlockSize(mem[block + 1]) != 0
        invariant block in g.span && s <= block <= g.pools[s] && Walked(g, s, block, v)
        invariant block + 1 < mem.Length && BlockSize(mem[block + 1]) == 8 * g.span[block]
        decreases g.pools[s] - block
      {
        NextIsNext(block);
        var visit := Visit(block + 2, BlockSize(mem[block + 1]), !FreeBit(mem[block + 1]));
        assert (v + [visit])[..|v|] == v;
        assert Visited(g, block, visit);
        v := v + [visit];
        assert Ahead(g, block);
        block := BlockNext(block);
        NextIsNext(block);
      }
      WalkedBytes(g, s, block, v);
    }

    lemma FirstHasNoneBefore(s: nat)
      requires Valid() && s in g.pools
      ensures s + 1 < mem.Length && !PrevFreeBit(mem[s + 1])
    {
      assert Pool(g, s);
      NextIsNext(s);
      assert mem[s] in g.free ==> mem[s] in g.span && Tile(g, mem.Length, mem[s]);
    }

    /** tlsf_check_pool: the prev-free bit of each block agrees with the block before it. */
    method CheckPool(pool: nat) returns (status: int)
      requires Valid() && 1 <= pool && pool - 1 in g.pools
      ensures status == 0
    {
      status := 0;
      var prevFree, block := false, pool - 1;
      ghost var s := pool - 1;
      assert Pool(g, s);
      NextIsNext(block);
      FirstHasNoneBefore(s);
      while BlockSize(mem[block + 1]) != 0
        invariant block in g.span && s <= block <= g.pools[s] && status == 0
        invariant block + 1 < mem.Length && BlockSize(mem[block + 1]) == 8 * g.span[block]
        invariant prevFree == PrevFreeBit(mem[block + 1])
        decreases g.pools[s] - block
      {
        NextIsNext(block);
        if prevFree != PrevFreeBit(mem[block + 1]) { status := status - 1; }
        prevFree := FreeBit(mem[block + 1]);
        assert Ahead(g, block);
        block := BlockNext(block);
        NextIsNext(block);
      }
    }

    // ------------------------------------------------------------ callers

    /** A caller may store to what it was given. */
    method WritePayload(p: nat, i: nat, w: nat)
      requires Valid() && 2 <= p && p - 2 in Live(g) && i < g.span[p - 2]
      modifies mem
      ensures Valid() && p + i < mem.Length && mem[..] == old(mem[..])[p + i := w]
      ensures Kept(old(mem[..]), mem[..], Live(g) - {p - 2})
    {
      NextIsNext(p - 2);
      ghost var m := mem[..];
      Store(p + i, w);
      PayloadKeeps(m, mem[..], ctl, g, links, p - 2);
    }
  }
}
