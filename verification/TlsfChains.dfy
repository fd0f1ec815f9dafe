/** What the local links add up to: each list, read from its head, is all of its class. */
module TlsfChains {
  import opened Bits
  import opened TlsfMapping
  import opened TlsfLists
  import opened TlsfTiling
  import opened TlsfState

  /** The blocks from `b` on, by next_free. */
  ghost function Chain(m: seq<nat>, blocks: seq<nat>, links: Links, b: nat): seq<nat>
    requires Linked(m, blocks, links) && b in links.list && b in links.stamp
    decreases links.stamp[b]
  {
    assert Node(m, blocks, links, b);
    var n := NextFree(m, b);
    if n == NULL_BLOCK then [b] else [b] + Chain(m, blocks, links, n)
  }

  lemma Stamped(m: seq<nat>, blocks: seq<nat>, links: Links, b: nat)
    requires Linked(m, blocks, links) && b in links.list
    ensures b in links.stamp && links.stamp[b] < links.clock && links.list[b] < |blocks|
    ensures b + 3 < |m| && b != NULL_BLOCK
  {
    assert Node(m, blocks, links, b);
  }

  lemma {:induction false} ChainMember(m: seq<nat>, blocks: seq<nat>, links: Links, b: nat, k: nat)
    requires Linked(m, blocks, links) && b in links.list && b in links.stamp
    requires k < |Chain(m, blocks, links, b)|
    ensures var x := Chain(m, blocks, links, b)[k];
      && x in links.list && x in links.stamp && links.list[x] == links.list[b] && x + 3 < |m|
      && links.stamp[x] <= links.stamp[b] && (k > 0 ==> links.stamp[x] < links.stamp[b])
      && (k > 0 ==> PrevFree(m, x) == Chain(m, blocks, links, b)[k - 1])
    decreases links.stamp[b]
  {
    assert Node(m, blocks, links, b);
    if k > 0 {
      var n := NextFree(m, b);
      ChainMember(m, blocks, links, n, k - 1);
      assert Chain(m, blocks, links, n)[0] == n;
    }
  }

  lemma {:induction false} ChainDistinct(m: seq<nat>, blocks: seq<nat>, links: Links, b: nat, j: nat, k: nat)
    requires Linked(m, blocks, links) && b in links.list && b in links.stamp
    requires j < k < |Chain(m, blocks, links, b)|
    ensures Chain(m, blocks, links, b)[j] != Chain(m, blocks, links, b)[k]
    decreases links.stamp[b]
  {
    assert Node(m, blocks, links, b);
    if j == 0 {
      ChainMember(m, blocks, links, b, k);
    } else {
      ChainDistinct(m, blocks, links, NextFree(m, b), j - 1, k - 1);
    }
  }

  /** The chain goes on behind each of its members. */
  lemma {:induction false} ChainGoesOn(m: seq<nat>, blocks: seq<nat>, links: Links, b: nat, x: nat)
    requires Linked(m, blocks, links) && b in links.list && b in links.stamp
    requires x in Chain(m, blocks, links, b) && x + 3 < |m| && NextFree(m, x) != NULL_BLOCK
    ensures NextFree(m, x) in Chain(m, blocks, links, b)
    decreases links.stamp[b]
  {
    assert Node(m, blocks, links, b);
    var n := NextFree(m, b);
    if x == b {
      assert n in Chain(m, blocks, links, n);
    } else {
      ChainGoesOn(m, blocks, links, n, x);
    }
  }

  /** Every listed block is reached from the head of its list. */
  lemma {:induction false} Reached(m: seq<nat>, blocks: seq<nat>, links: Links, x: nat)
    requires Linked(m, blocks, links) && x in links.list && x in links.stamp
    ensures links.list[x] < |blocks|
    ensures var h := blocks[links.list[x]];
      h in links.list && h in links.stamp && x in Chain(m, blocks, links, h)
    decreases if links.stamp[x] < links.clock then links.clock - links.stamp[x] else 0
  {
    assert Node(m, blocks, links, x);
    var p := PrevFree(m, x);
    if p == NULL_BLOCK {
      assert x in Chain(m, blocks, links, x);
    } else {
      assert Node(m, blocks, links, p);
      Reached(m, blocks, links, p);
      ChainGoesOn(m, blocks, links, blocks[links.list[x]], p);
    }
  }

  ghost function ListSeq(m: seq<nat>, blocks: seq<nat>, links: Links, i: nat): seq<nat>
    requires Linked(m, blocks, links) && i < |blocks|
  {
    assert Head(m, blocks, links, i);
    if blocks[i] == NULL_BLOCK then [] else Chain(m, blocks, links, blocks[i])
  }

  /** Each free block sits exactly once in the doubly linked list of its size class, nothing else does,
      and the second-level bit says whether the list holds anything. */
  lemma FreeListsExact(m: seq<nat>, c: Control, g: Shape, links: Links, i: nat)
    requires Sound(m, c, g, links) && i < LISTS
    ensures var l := ListSeq(m, c.blocks, links, i);
      && (forall x :: x in l <==> x in g.free && x in g.span && ListOf(g.span[x]) == i)
      && (forall j, k :: 0 <= j < k < |l| ==> l[j] != l[k])
      && (forall k :: 0 < k < |l| ==> l[k] + 3 < |m| && PrevFree(m, l[k]) == l[k - 1])
      && (l == [] <==> !Bit(c.slBitmap[i / 32], i % 32))
  {
    var l := ListSeq(m, c.blocks, links, i);
    var h := c.blocks[i];
    assert Head(m, c.blocks, links, i);
    forall x | x in l ensures x in g.free && x in g.span && ListOf(g.span[x]) == i {
      var k :| 0 <= k < |l| && l[k] == x;
      ChainMember(m, c.blocks, links, h, k);
      assert Placed(g, links, x);
    }
    forall x | x in g.free && x in g.span && ListOf(g.span[x]) == i ensures x in l {
      assert x in links.list && Placed(g, links, x);
      Stamped(m, c.blocks, links, x);
      Reached(m, c.blocks, links, x);
      Stamped(m, c.blocks, links, h);
    }
    forall j, k | 0 <= j < k < |l| ensures l[j] != l[k] { ChainDistinct(m, c.blocks, links, h, j, k); }
    forall k | 0 < k < |l| ensures l[k] + 3 < |m| && PrevFree(m, l[k]) == l[k - 1] {
      ChainMember(m, c.blocks, links, h, k);
    }
  }
}
