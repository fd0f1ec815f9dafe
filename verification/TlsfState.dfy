/** The invariant of the allocator as a whole, and what single stores leave alone. */
module TlsfState {
  import opened TlsfMapping
  import opened TlsfLists
  import opened TlsfTiling

  /** The list a block of `n` payload words belongs to. */
  function ListOf(n: nat): nat
  {
    ClassHoldsSize(8 * n);
    MappingInsert(8 * n).Index()
  }

  ghost predicate Placed(g: Shape, links: Links, b: nat) {
    b in links.list && b in g.span && links.list[b] == ListOf(g.span[b])
  }

  /** Every listed block is a free block of the tiling, in the list of its size class. */
  ghost predicate Filed(g: Shape, links: Links) {
    && links.list.Keys <= g.free
    && forall b {:trigger Placed(g, links, b)} :: b in links.list ==> Placed(g, links, b)
  }

  /** Blocks other than those that are listed may change their size. */
  lemma FiledFrame(g: Shape, g': Shape, links: Links, links': Links)
    requires Filed(g, links) && links'.list.Keys <= g'.free && g'.free <= g'.span.Keys
    requires forall b :: b in links'.list ==> b in links.list && links'.list[b] == links.list[b]
    requires forall b :: b in links'.list && b in g.span ==> g'.span[b] == g.span[b]
    ensures Filed(g', links')
  {
    forall b | b in links'.list ensures Placed(g', links', b) { assert Placed(g, links, b); }
  }

  /** What holds between any two steps of an operation. */
  ghost predicate Consistent(m: seq<nat>, c: Control, g: Shape, links: Links) {
    Tiling(m, g) && Linked(m, c.blocks, links) && Mapped(c) && Filed(g, links)
  }

  /** What holds between operations: every free block is listed, and no two free blocks touch. */
  ghost predicate Sound(m: seq<nat>, c: Control, g: Shape, links: Links) {
    Consistent(m, c, g, links) && links.list.Keys == g.free && Coalesced(g)
  }

  // ---------------------------------------------------------------- payloads

  /** `u` gives, for some allocated blocks, how many payload words are spoken for. */
  ghost predicate Used(g: Shape, u: map<nat, nat>) {
    forall c :: c in u ==> c in g.span && c !in g.free && u[c] <= g.span[c]
  }

  /** The payload words in `u` are the same. */
  ghost predicate Kept(m: seq<nat>, m': seq<nat>, u: map<nat, nat>) {
    |m'| == |m| && forall c, k :: c in u && c + 2 <= k < c + 2 + u[c] && k < |m| ==> m'[k] == m[k]
  }

  /** Fewer payload words are kept when more are. */
  lemma KeptLess(m: seq<nat>, m': seq<nat>, u: map<nat, nat>, u': map<nat, nat>)
    requires Kept(m, m', u) && forall c :: c in u' ==> c in u && u'[c] <= u[c]
    ensures Kept(m, m', u')
  {
  }

  // ---------------------------------------------------------------- the lists see only their words

  lemma FreeBlocksSpaced(m: seq<nat>, g: Shape, s: set<nat>)
    requires Tiling(m, g) && s <= g.free
    ensures Spaced(s)
    ensures forall b :: b in s ==> 4 <= b && b + 3 < |m|
  {
    DisjointIff(g);
    forall b | b in s ensures 4 <= b && b + 3 < |m| && 3 <= g.span[b] {
      assert b in g.span;
      assert Tile(g, |m|, b);
    }
  }

  lemma NodeFrame(m: seq<nat>, m': seq<nat>, blocks: seq<nat>, links: Links, b: nat)
    requires |m'| == |m| && Node(m, blocks, links, b)
    requires forall x :: x in links.list && x + 3 < |m| ==> m'[x + 2] == m[x + 2] && m'[x + 3] == m[x + 3]
    ensures Node(m', blocks, links, b)
  {
  }

  lemma LinkedFrame(m: seq<nat>, m': seq<nat>, blocks: seq<nat>, links: Links)
    requires |m'| == |m| && Linked(m, blocks, links)
    requires forall x :: x in links.list && x + 3 < |m| ==> m'[x + 2] == m[x + 2] && m'[x + 3] == m[x + 3]
    ensures Linked(m', blocks, links)
  {
    forall b | b in links.list ensures Node(m', blocks, links, b) {
      assert Node(m, blocks, links, b);
      NodeFrame(m, m', blocks, links, b);
    }
    forall i | 0 <= i < |blocks| ensures Head(m', blocks, links, i) {
      assert Head(m, blocks, links, i);
    }
  }

  // ---------------------------------------------------------------- the tiling ignores link words

  /** A link word: of block_null, or of a free block. */
  ghost predicate IsLinkWord(g: Shape, c: nat, i: nat) {
    (c == NULL_BLOCK || (c in g.free && c in g.span)) && (i == c + 2 || i == c + 3)
  }

  lemma LinkWordApart(g: Shape, len: nat, c: nat, i: nat, b: nat)
    requires Disjoint(g) && IsLinkWord(g, c, i) && Tile(g, len, b) && (c != NULL_BLOCK ==> Tile(g, len, c))
    ensures i != b && i != b + 1
    ensures b !in g.free ==> !(b + 2 <= i < b + 2 + g.span[b])
    ensures g.span[b] > 0 ==> i != Next(g, b)
  {
    if c != NULL_BLOCK && c != b { Apart(g, len, b, c); }
  }

  lemma StoreKeepsWords(m: seq<nat>, g: Shape, c: nat, i: nat, v: nat)
    requires Tiling(m, g) && IsLinkWord(g, c, i) && i < |m|
    ensures Tiling(m[i := v], g)
  {
    DisjointIff(g);
    var m' := m[i := v];
    assert c != NULL_BLOCK ==> Tile(g, |m|, c);
    forall b | b in g.span ensures Cell(m', g, b) {
      assert Tile(g, |m|, b) && Cell(m, g, b);
      LinkWordApart(g, |m|, c, i, b);
      if g.span[b] > 0 {
        assert Tile(g, |m|, Next(g, b));
        LinkWordApart(g, |m|, c, i, Next(g, b));
      }
      if PrevFreeBit(m[b + 1]) { assert m'[b] == m[b]; }
    }
  }

  lemma StoreKeepsPayload(m: seq<nat>, g: Shape, c: nat, i: nat, v: nat, u: map<nat, nat>)
    requires Tiling(m, g) && IsLinkWord(g, c, i) && i < |m| && Used(g, u)
    ensures Kept(m, m[i := v], u)
  {
    DisjointIff(g);
    assert c != NULL_BLOCK ==> Tile(g, |m|, c);
    forall b | b in u ensures !(b + 2 <= i < b + 2 + u[b]) {
      assert Tile(g, |m|, b);
      LinkWordApart(g, |m|, c, i, b);
    }
  }

  // ---------------------------------------------------------------- taking out and putting in

  lemma RemoveKeeps(m: seq<nat>, c: Control, g: Shape, links: Links, b: nat, u: map<nat, nat>)
    requires Consistent(m, c, g, links) && b in links.list && Used(g, u)
    ensures b + 3 < |m| && m[b + 2] + 3 < |m| && m[b + 3] + 2 < |m| && links.list[b] < LISTS && b != NULL_BLOCK
    ensures Consistent(UnlinkedWords(m, b), RemovedFrom(c, m, b, links.list[b]), g, Unlisted(links, b))
    ensures Kept(m, UnlinkedWords(m, b), u)
  {
    FreeBlocksSpaced(m, g, links.list.Keys);
    UnlinkKeeps(m, c.blocks, links, b);
    RemoveWords(m, g, m[b + 2], m[b + 3], u);
    FiledFrame(g, g, links, Unlisted(links, b));
    assert Placed(g, links, b);
    RemovedMapped(c, m, b, links.list[b]);
  }

  lemma RemoveWords(m: seq<nat>, g: Shape, n: nat, p: nat, u: map<nat, nat>)
    requires Tiling(m, g) && Used(g, u) && n + 3 < |m| && p + 3 < |m|
    requires n == NULL_BLOCK || (n in g.free && n in g.span)
    requires p == NULL_BLOCK || (p in g.free && p in g.span)
    ensures Tiling(m[n + 3 := p][p + 2 := n], g)
    ensures Kept(m, m[n + 3 := p][p + 2 := n], u)
  {
    var m1 := m[n + 3 := p];
    StoreKeepsWords(m, g, n, n + 3, p);
    StoreKeepsPayload(m, g, n, n + 3, p, u);
    StoreKeepsWords(m1, g, p, p + 2, n);
    StoreKeepsPayload(m1, g, p, p + 2, n, u);
  }

  lemma InsertKeeps(m: seq<nat>, c: Control, g: Shape, links: Links, b: nat, u: map<nat, nat>)
    requires Consistent(m, c, g, links) && b in g.free && b in g.span && b !in links.list && Used(g, u)
    ensures b + 3 < |m| && ListOf(g.span[b]) < LISTS && c.blocks[ListOf(g.span[b])] + 3 < |m|
    ensures var i := ListOf(g.span[b]);
      && Consistent(LinkedWords(m, c.blocks, b, i), InsertedInto(c, b, i), g, Listed(links, b, i))
      && Kept(m, LinkedWords(m, c.blocks, b, i), u)
  {
    var i := ListOf(g.span[b]);
    ListInRange(m, g, b);
    FreeBlocksSpaced(m, g, links.list.Keys + {b});
    assert b in links.list.Keys + {b};
    LinkKeeps(m, c.blocks, links, b, i);
    var h := c.blocks[i];
    InsertWords(m, g, b, h, u);
    InsertedMapped(c, b, i);
    InsertFiled(g, links, b);
  }

  lemma InsertFiled(g: Shape, links: Links, b: nat)
    requires Filed(g, links) && b in g.free && b in g.span
    ensures Filed(g, Listed(links, b, ListOf(g.span[b])))
  {
    var links' := Listed(links, b, ListOf(g.span[b]));
    forall x | x in links'.list ensures Placed(g, links', x) {
      if x != b { assert Placed(g, links, x); }
    }
  }

  lemma ListInRange(m: seq<nat>, g: Shape, b: nat)
    requires Tiling(m, g) && b in g.span
    ensures ListOf(g.span[b]) < LISTS
  {
    assert Tile(g, |m|, b);
    ClassHoldsSize(8 * g.span[b]);
  }

  lemma InsertWords(m: seq<nat>, g: Shape, b: nat, h: nat, u: map<nat, nat>)
    requires Tiling(m, g) && b in g.free && b in g.span && Used(g, u) && b + 3 < |m| && h + 3 < |m|
    requires h == NULL_BLOCK || (h in g.free && h in g.span)
    ensures Tiling(m[b + 2 := h][b + 3 := NULL_BLOCK][h + 3 := b], g)
    ensures Kept(m, m[b + 2 := h][b + 3 := NULL_BLOCK][h + 3 := b], u)
  {
    var m1 := m[b + 2 := h];
    var m2 := m1[b + 3 := NULL_BLOCK];
    StoreKeepsWords(m, g, b, b + 2, h);
    StoreKeepsPayload(m, g, b, b + 2, h, u);
    StoreKeepsWords(m1, g, b, b + 3, NULL_BLOCK);
    StoreKeepsPayload(m1, g, b, b + 3, NULL_BLOCK, u);
    StoreKeepsWords(m2, g, h, h + 3, b);
    StoreKeepsPayload(m2, g, h, h + 3, b, u);
  }

  // ---------------------------------------------------------------- marking, splitting, absorbing

  /** Stores between the size word of `b` and the one of the block at `end` leave the payload of all
      other blocks alone, and of `b` itself what lies before them. */
  lemma RegionKept(m: seq<nat>, m': seq<nat>, g: Shape, u: map<nat, nat>, b: nat, end: nat, changed: set<nat>)
    requires Tiling(m, g) && b in g.span && Same(m, m', changed)
    requires forall i :: i in changed ==> i == b + 1 || b < i <= end + 1
    requires forall x :: x in u ==> x in g.span && u[x] <= g.span[x] && (x == b || x < b || x >= end)
    requires b in u ==> forall i :: i in changed ==> i == b + 1 || b + 2 + u[b] <= i
    ensures Kept(m, m', u)
  {
    DisjointIff(g);
    forall c, k | c in u && c + 2 <= k < c + 2 + u[c] && k < |m| ensures m'[k] == m[k] {
      assert Tile(g, |m|, b) && Tile(g, |m|, c);
      assert k !in changed;
    }
  }

  lemma RegionLinked(m: seq<nat>, m': seq<nat>, blocks: seq<nat>, g: Shape, links: Links, b: nat, end: nat,
        changed: set<nat>)
    requires Tiling(m, g) && b in g.span && Same(m, m', changed) && Linked(m, blocks, links) && Filed(g, links)
    requires forall i :: i in changed ==> b < i <= end + 1
    requires forall x :: x in links.list ==> x < b || x >= end
    ensures Linked(m', blocks, links)
  {
    DisjointIff(g);
    assert Tile(g, |m|, b);
    forall x | x in links.list && x + 3 < |m| ensures m'[x + 2] == m[x + 2] && m'[x + 3] == m[x + 3] {
      assert x in g.free && x in g.span;
      assert Tile(g, |m|, x);
      assert x < b ==> x + 1 + g.span[x] <= b;
    }
    LinkedFrame(m, m', blocks, links);
  }

  /** Blocks other than `b` are before it or behind it. */
  lemma NotWithin(m: seq<nat>, g: Shape, b: nat, s: set<nat>)
    requires Tiling(m, g) && b in g.span && s <= g.span.Keys
    ensures forall x :: x in s ==> x == b || x < b || x >= Next(g, b)
  {
    DisjointIff(g);
  }

  lemma MarkFreeKeeps(m: seq<nat>, m': seq<nat>, c: Control, g: Shape, links: Links, b: nat, u: map<nat, nat>)
    requires Consistent(m, c, g, links) && b in g.span && b !in g.free && g.span[b] > 0
    requires MarkedFree(m, m', b, Next(g, b)) && Used(g, u) && b !in u
    ensures Consistent(m', c, Freed(g, b), links) && Kept(m, m', u) && Used(Freed(g, b), u)
  {
    MarkedTiles(g, Freed(g, b), |m|, b);
    MarkedFreeWords(m, m', g, b);
    FiledFrame(g, Freed(g, b), links, links);
    NotWithin(m, g, b, links.list.Keys);
    NotWithin(m, g, b, u.Keys);
    RegionLinked(m, m', c.blocks, g, links, b, Next(g, b), {b + 1, Next(g, b), Next(g, b) + 1});
    RegionKept(m, m', g, u, b, Next(g, b), {b + 1, Next(g, b), Next(g, b) + 1});
  }

  lemma MarkUsedKeeps(m: seq<nat>, m': seq<nat>, c: Control, g: Shape, links: Links, b: nat, u: map<nat, nat>)
    requires Consistent(m, c, g, links) && b in g.free && b in g.span && b !in links.list && g.span[b] > 0
    requires MarkedUsed(m, m', b, Next(g, b)) && Used(g, u)
    ensures Consistent(m', c, Taken(g, b), links) && Kept(m, m', u) && Used(Taken(g, b), u)
  {
    MarkedTiles(g, Taken(g, b), |m|, b);
    MarkedUsedWords(m, m', g, b);
    FiledFrame(g, Taken(g, b), links, links);
    NotWithin(m, g, b, links.list.Keys);
    NotWithin(m, g, b, u.Keys);
    RegionLinked(m, m', c.blocks, g, links, b, Next(g, b), {b + 1, Next(g, b) + 1});
    RegionKept(m, m', g, u, b, Next(g, b), {b + 1, Next(g, b) + 1});
  }

  lemma SplitKeeps(m: seq<nat>, m': seq<nat>, c: Control, g: Shape, links: Links, b: nat, k: nat, u: map<nat, nat>)
    requires Consistent(m, c, g, links) && b in g.span && b !in links.list && 3 <= k && k + 4 <= g.span[b]
    requires SplitAt(m, m', b, k, Next(g, b), b in g.free) && Used(g, u) && (b in u ==> u[b] <= k)
    ensures Consistent(m', c, Split(g, b, k), links) && Kept(m, m', u) && Used(Split(g, b, k), u)
  {
    var n := Next(g, b);
    SplitTiles(g, |m|, b, k);
    SplitWords(m, m', g, b, k);
    NotWithin(m, g, b, links.list.Keys);
    NotWithin(m, g, b, u.Keys);
    SplitFiled(g, links, b, k, u);
    var changed := {b + 1, b + 1 + k, b + 1 + k + 1, n, n + 1};
    RegionLinked(m, m', c.blocks, g, links, b, n, changed);
    SplitKept(m, m', g, b, k, u);
  }

  lemma SplitFiled(g: Shape, links: Links, b: nat, k: nat, u: map<nat, nat>)
    requires Filed(g, links) && Used(g, u) && b in g.span && b !in links.list && k + 1 <= g.span[b]
    requires b + 1 + k !in g.span && (b in u ==> u[b] <= k) && g.free <= g.span.Keys
    ensures Filed(Split(g, b, k), links) && Used(Split(g, b, k), u)
  {
    FiledFrame(g, Split(g, b, k), links, links);
  }

  lemma SplitKept(m: seq<nat>, m': seq<nat>, g: Shape, b: nat, k: nat, u: map<nat, nat>)
    requires Tiling(m, g) && Used(g, u) && b in g.span && 3 <= k && k + 4 <= g.span[b] && (b in u ==> u[b] <= k)
    requires SplitAt(m, m', b, k, Next(g, b), b in g.free)
    ensures Kept(m, m', u)
  {
    var n := Next(g, b);
    NotWithin(m, g, b, u.Keys);
    if b in g.free {
      RegionKept(m, m', g, u, b, n, {b + 1, b + 1 + k, b + 1 + k + 1, n, n + 1});
    } else {
      // The first header word of the rest still is the last payload word of `b`.
      RegionKept(m, m', g, u, b, n, {b + 1, b + 1 + k + 1, n, n + 1});
    }
  }

  lemma AbsorbKeeps(m: seq<nat>, m': seq<nat>, c: Control, g: Shape, links: Links, b: nat, u: map<nat, nat>)
    requires Consistent(m, c, g, links) && b in g.span && b !in links.list && g.span[b] > 0
    requires Next(g, b) in g.free && Next(g, b) !in links.list && Next(g, b) in g.span && g.span[Next(g, b)] > 0
    requires AbsorbedAt(m, m', b, Next(g, b), Next(g, Next(g, b)), b in g.free) && Used(g, u)
    ensures Consistent(m', c, Absorbed(g, b), links) && Kept(m, m', u) && Used(Absorbed(g, b), u)
  {
    var q := Next(g, b);
    var n := Next(g, q);
    AbsorbedTiles(g, |m|, b);
    AbsorbedWords(m, m', g, b);
    FiledFrame(g, Absorbed(g, b), links, links);
    NotWithin(m, g, b, links.list.Keys);
    NotWithin(m, g, q, links.list.Keys);
    NotWithin(m, g, b, u.Keys);
    NotWithin(m, g, q, u.Keys);
    RegionLinked(m, m', c.blocks, g, links, b, n, {b + 1, n, n + 1});
    RegionKept(m, m', g, u, b, n, {b + 1, n, n + 1});
  }

  // ---------------------------------------------------------------- neighbours

  /** The allocated blocks and their payload words. */
  function Live(g: Shape): map<nat, nat> {
    map b | b in g.span && b !in g.free && g.span[b] > 0 :: g.span[b]
  }

  /** A free block followed by a free block is followed by, or is, `b`. */
  ghost predicate Around(g: Shape, b: nat) {
    forall x {:trigger Lone(g, x)} :: x in g.free && x != b ==> Lone(g, x) || (x in g.span && Next(g, x) == b)
  }

  /** A free block followed by a free block is `b`. */
  ghost predicate LeftClean(g: Shape, b: nat) {
    forall x {:trigger Lone(g, x)} :: x in g.free && x != b ==> Lone(g, x)
  }

  /** A free block followed by a free block is followed by `b`, which has no free block behind it. */
  ghost predicate OnlyBefore(g: Shape, b: nat) {
    forall x {:trigger Lone(g, x)} :: x in g.free ==> Lone(g, x) || (x in g.span && x != b && Next(g, x) == b)
  }

  lemma FreedAround(g: Shape, b: nat)
    requires Coalesced(g) && b in g.span
    ensures Around(Freed(g, b), b)
  {
    forall x | x in Freed(g, b).free && x != b
      ensures Lone(Freed(g, b), x) || (x in g.span && Next(g, x) == b) {
      assert Lone(g, x);
    }
  }

  lemma NoFreeBefore(m: seq<nat>, g: Shape, b: nat)
    requires Tiling(m, g) && Around(g, b) && b in g.span && b + 1 < |m| && !PrevFreeBit(m[b + 1])
    ensures LeftClean(g, b)
  {
    forall x | x in g.free && x != b ensures Lone(g, x) {
      assert Tile(g, |m|, x) && Cell(m, g, x);
      if !Lone(g, x) { assert false; }
    }
  }

  lemma MergePrevClean(g: Shape, len: nat, b: nat, p: nat)
    requires Tiles(g, len) && Around(g, b) && p in g.free && p in g.span && p != b && Next(g, p) == b && b in g.span
    ensures g.span[p] > 0 && LeftClean(Absorbed(g, p), p)
  {
    DisjointIff(g);
    assert Tile(g, len, p);
    forall x | x in Absorbed(g, p).free && x != p ensures Lone(Absorbed(g, p), x) {
      assert Tile(g, len, x);
      Apart(g, len, p, x);
      if !Lone(g, x) { assert false; }
    }
  }

  lemma MergeNextClean(g: Shape, len: nat, b: nat)
    requires Tiles(g, len) && LeftClean(g, b) && b in g.free && b in g.span && Next(g, b) in g.free
    requires Next(g, b) in g.span
    ensures g.span[b] > 0 && Coalesced(Absorbed(g, b))
  {
    assert Tile(g, len, b);
    assert Lone(g, Next(g, b));
    forall x | x in Absorbed(g, b).free ensures Lone(Absorbed(g, b), x) {
      if x != b { assert Lone(g, x); }
    }
  }

  lemma AbsorbedLive(g: Shape, len: nat, b: nat)
    requires Tiles(g, len) && b in g.free && b in g.span && Next(g, b) in g.free && Next(g, b) in g.span
    requires Next(g, b) > b
    ensures Live(Absorbed(g, b)) == Live(g)
  {
  }

  lemma SplitOnlyBefore(g: Shape, len: nat, b: nat, k: nat)
    requires Tiles(g, len) && OnlyBefore(g, b) && b in g.free && b in g.span && 3 <= k && k + 4 <= g.span[b]
    requires b + 1 + k !in g.span
    ensures Coalesced(Taken(Split(g, b, k), b))
  {
    assert Tile(g, len, b) && Lone(g, b);
    var g' := Taken(Split(g, b, k), b);
    forall x | x in g'.free ensures Lone(g', x) {
      if x != b + 1 + k {
        assert Tile(g, len, x);
        assert Lone(g, x) || Next(g, x) == b;
      }
    }
  }

  lemma TakenOnlyBefore(g: Shape, b: nat)
    requires OnlyBefore(g, b) && b in g.free && b in g.span
    ensures Coalesced(Taken(g, b))
  {
    forall x | x in Taken(g, b).free ensures Lone(Taken(g, b), x) {
      assert Lone(g, x) || Next(g, x) == b;
    }
  }

  lemma SplitLeftClean(g: Shape, len: nat, b: nat, k: nat)
    requires Tiles(g, len) && Coalesced(g) && b !in g.free && b in g.span && 3 <= k && k + 4 <= g.span[b]
    requires b + 1 + k !in g.span
    ensures LeftClean(Split(g, b, k), b + 1 + k)
  {
    forall x | x in Split(g, b, k).free && x != b + 1 + k ensures Lone(Split(g, b, k), x) {
      assert Tile(g, len, x);
      assert Lone(g, x);
    }
  }

  /** The rest of a split, when its leading part goes back to the pool. */
  lemma LeadingOnlyBefore(g: Shape, len: nat, b: nat, k: nat)
    requires Tiles(g, len) && Coalesced(g) && b in g.free && b in g.span && 3 <= k && k + 4 <= g.span[b]
    requires b + 1 + k !in g.span
    ensures OnlyBefore(Split(g, b, k), b + 1 + k)
  {
    var g' := Split(g, b, k);
    assert Tile(g, len, b) && Lone(g, b);
    forall x | x in g'.free ensures Lone(g', x) || (x in g'.span && x != b + 1 + k && Next(g', x) == b + 1 + k) {
      if x != b && x != b + 1 + k { assert Lone(g, x) && Tile(g, len, x); }
    }
  }

  lemma SplitUsedLive(g: Shape, b: nat, k: nat)
    requires b in Live(g) && 0 < k && k + 1 <= g.span[b] && b + 1 + k !in g.span
    ensures Live(Split(g, b, k)) == Live(g)[b := k]
  {
  }

  lemma AbsorbUsedClean(g: Shape, len: nat, b: nat)
    requires Tiles(g, len) && Coalesced(g) && b in Live(g) && Next(g, b) in g.free && Next(g, b) in g.span
    ensures Coalesced(Absorbed(g, b)) && g.span[b] > 0 && g.span[Next(g, b)] > 0
    ensures Live(Absorbed(g, b)) == Live(g)[b := g.span[b] + 1 + g.span[Next(g, b)]]
  {
    assert Tile(g, len, b);
    var q := Next(g, b);
    assert Tile(g, len, q);
    forall x | x in Absorbed(g, b).free ensures Lone(Absorbed(g, b), x) {
      assert Lone(g, x);
    }
  }

  lemma SplitLive(g: Shape, b: nat, k: nat)
    requires b in g.span && b in g.free && k + 1 <= g.span[b] && b + 1 + k !in g.span
    ensures Live(Split(g, b, k)) == Live(g)
  {
  }

  lemma TakenLive(g: Shape, b: nat)
    requires b in g.span && b in g.free && g.span[b] > 0
    ensures b !in Live(g) && Live(Taken(g, b)) == Live(g)[b := g.span[b]]
  {
  }

  lemma FreedLive(g: Shape, b: nat)
    requires b in g.span && b !in g.free
    ensures Live(Freed(g, b)) == Live(g) - {b}
  {
  }

  lemma CoalescedOnlyBefore(g: Shape, b: nat)
    requires Coalesced(g)
    ensures OnlyBefore(g, b)
  {
    forall x | x in g.free ensures Lone(g, x) || (x in g.span && x != b && Next(g, x) == b) {
      assert Lone(g, x);
    }
  }

  // ---------------------------------------------------------------- lists that are not empty

  /** The list of a listed block has a head. */
  lemma {:induction false} HasHead(m: seq<nat>, blocks: seq<nat>, links: Links, b: nat)
    requires Linked(m, blocks, links) && b in links.list
    ensures Node(m, blocks, links, b) && blocks[links.list[b]] != NULL_BLOCK
    decreases if b in links.stamp && links.stamp[b] < links.clock then links.clock - links.stamp[b] else 0
  {
    assert Node(m, blocks, links, b);
    var p := PrevFree(m, b);
    if p != NULL_BLOCK {
      assert Node(m, blocks, links, p);
      HasHead(m, blocks, links, p);
    }
  }

  /** A block in a list that is searched is large enough, and one in no such list is not. */
  lemma ListFits(k: nat, n: nat)
    ensures MappingSearch(8 * k).Index() <= ListOf(n) ==> k <= n
    ensures MappingSearch(8 * k).Index() > ListOf(n) ==> 8 * n < RoundUp(8 * k)
  {
    GoodFit(8 * k, 8 * n);
  }

  /** A free block in a list at or above the one searched for `size` bytes. */
  ghost predicate InSearchedList(g: Shape, size: nat, b: nat) {
    b in g.free && b in g.span && MappingSearch(size).Index() <= ListOf(g.span[b])
  }

  /** What the search finds if it can. */
  ghost predicate HasRoom(g: Shape, size: nat) {
    exists b {:trigger InSearchedList(g, size, b)} :: InSearchedList(g, size, b)
  }

  /** A free block in the lowest of the searched lists that hold any. */
  ghost predicate InLowestList(g: Shape, size: nat, b: nat) {
    && InSearchedList(g, size, b)
    && forall c :: InSearchedList(g, size, c) ==> ListOf(g.span[b]) <= ListOf(g.span[c])
  }

  /** A payload address within such a block. */
  ghost predicate InBestBlock(g: Shape, size: nat, p: nat) {
    exists b: nat {:trigger InLowestList(g, size, b)} :: InLowestList(g, size, b) && b + 2 <= p < b + 2 + g.span[b]
  }

  lemma WithinBest(g: Shape, size: nat, b: nat, p: nat)
    requires InLowestList(g, size, b) && b + 2 <= p < b + 2 + g.span[b]
    ensures InBestBlock(g, size, p)
  {
  }

  /** Without room no free block reaches the size rounded up to its class. */
  lemma NoRoom(g: Shape, k: nat)
    requires !HasRoom(g, 8 * k)
    ensures forall b :: b in g.free && b in g.span ==> 8 * g.span[b] < RoundUp(8 * k)
  {
    forall b | b in g.free && b in g.span ensures 8 * g.span[b] < RoundUp(8 * k) {
      assert !InSearchedList(g, 8 * k, b);
      ListFits(k, g.span[b]);
    }
  }

  /** What a search can and cannot return. */
  lemma SearchFinds(m: seq<nat>, c: Control, g: Shape, links: Links, k: nat, i: nat)
    requires Consistent(m, c, g, links) && links.list.Keys == g.free && i < LISTS
    requires MappingSearch(8 * k).Index() <= i && c.blocks[i] != NULL_BLOCK
    ensures c.blocks[i] in g.free && c.blocks[i] in g.span && c.blocks[i] in links.list
    ensures links.list[c.blocks[i]] == i && k <= g.span[c.blocks[i]] && HasRoom(g, 8 * k)
  {
    assert Head(m, c.blocks, links, i);
    var b := c.blocks[i];
    assert Placed(g, links, b);
    ListFits(k, g.span[b]);
    assert InSearchedList(g, 8 * k, b);
  }

  /** The first list that is not empty is the best the search can do. */
  lemma SearchIsBest(m: seq<nat>, c: Control, g: Shape, links: Links, k: nat, i: nat)
    requires Consistent(m, c, g, links) && links.list.Keys == g.free && i < LISTS
    requires 0 <= MappingSearch(8 * k).Index() <= i && c.blocks[i] != NULL_BLOCK
    requires forall l :: MappingSearch(8 * k).Index() <= l < i ==> c.blocks[l] == NULL_BLOCK
    ensures InLowestList(g, 8 * k, c.blocks[i])
  {
    SearchFinds(m, c, g, links, k, i);
    assert Placed(g, links, c.blocks[i]);
    forall x | InSearchedList(g, 8 * k, x) ensures i <= ListOf(g.span[x]) {
      assert x in links.list && Placed(g, links, x);
      HasHead(m, c.blocks, links, x);
      ListInRange(m, g, x);
    }
  }

  lemma SearchFails(m: seq<nat>, c: Control, g: Shape, links: Links, k: nat)
    requires Consistent(m, c, g, links) && links.list.Keys == g.free
    requires MappingSearch(8 * k).Index() >= 0
    requires forall i :: MappingSearch(8 * k).Index() <= i < LISTS ==> c.blocks[i] == NULL_BLOCK
    ensures !HasRoom(g, 8 * k)
  {
    forall b: nat ensures !InSearchedList(g, 8 * k, b) {
      if b in g.free {
        assert b in links.list && Placed(g, links, b);
        HasHead(m, c.blocks, links, b);
        ListInRange(m, g, b);
      }
    }
  }

  /** Beyond the last list there is nothing to find. */
  lemma NothingSoLarge(m: seq<nat>, g: Shape, k: nat)
    requires Tiling(m, g) && MappingSearch(8 * k).fl >= FL_INDEX_COUNT
    ensures !HasRoom(g, 8 * k)
  {
    ClassHoldsSize(RoundUp(8 * k));
    forall b: nat ensures !InSearchedList(g, 8 * k, b) {
      if b in g.span { ListInRange(m, g, b); }
    }
  }
}
