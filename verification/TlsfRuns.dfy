/** Whole runs of the allocator: any script of calls, then everything freed. */
module TlsfRuns {
  import Bits
  import opened TlsfMapping
  import opened TlsfLists
  import opened TlsfTiling
  import opened TlsfState
  import opened TlsfAlign
  import opened TlsfPools
  import opened TlsfCut
  import opened Tlsf

  /** A call by a client that keeps its pointers in numbered slots. */
  datatype Command =
    | DoMalloc(slot: nat, size: nat)
    | DoMemalign(slot: nat, logAlign: nat, size: nat)
    | DoRealloc(slot: nat, size: nat)
    | DoFree(slot: nat)
    | DoWrite(slot: nat, word: nat, value: nat)
    | DoAddPool(address: nat, bytes: nat)
    | DoRemovePool(pool: nat)
  {
    predicate Names(i: nat) {
      !DoAddPool? && !DoRemovePool? && slot == i
    }

    /** A size that is adjusted to 0 although it is not. */
    predicate Oversize() {
      DoRealloc? && size != 0 && AdjustRequestSize(size, ALIGN_SIZE) == 0
    }
  }

  /** What the client knows: its pointers, and the first block and the sentinel of every pool. */
  datatype Client = Client(slots: seq<nat>, pools: map<nat, nat>)

  ghost predicate Knows(c: Client, g: Shape) {
    Owned(c.slots, Live(g)) && c.pools == g.pools
  }

  /** Slot `i` holds a pointer of its own to an allocated block, or NULL. */
  ghost predicate SlotOk(t: seq<nat>, live: map<nat, nat>, i: nat)
    requires i < |t|
  {
    t[i] == NULL || (2 <= t[i] && t[i] - 2 in live && forall j :: 0 <= j < |t| && j != i ==> t[j] != t[i])
  }

  ghost predicate Held(t: seq<nat>, b: nat) {
    exists i :: 0 <= i < |t| && t[i] == b + 2
  }

  /** The slots hold exactly the allocated blocks: nothing is lost and nothing is handed out twice. */
  ghost predicate Owned(t: seq<nat>, live: map<nat, nat>) {
    && (forall i {:trigger SlotOk(t, live, i)} :: 0 <= i < |t| ==> SlotOk(t, live, i))
    && (forall b {:trigger Held(t, b)} :: b in live ==> Held(t, b))
  }

  /** A slot changes from pointer `t[i]` to `p`. */
  lemma SlotChanged(t: seq<nat>, live: map<nat, nat>, live': map<nat, nat>, i: nat, p: nat)
    requires Owned(t, live) && i < |t|
    requires p == NULL || (2 <= p && p - 2 in live' && (p == t[i] || p - 2 !in live))
    requires forall b: nat :: b in live' <==> (b in live && b + 2 != t[i]) || b + 2 == p
    ensures Owned(t[i := p], live')
  {
    var t' := t[i := p];
    forall k | 0 <= k < |t'| ensures SlotOk(t', live', k) {
      assert SlotOk(t, live, k) && SlotOk(t, live, i);
      forall j | 0 <= j < |t'| && j != k && t'[k] != NULL ensures t'[j] != t'[k] {
        assert SlotOk(t, live, j);
      }
    }
    forall b | b in live' ensures Held(t', b) {
      if b + 2 == p {
        assert t'[i] == b + 2;
      } else {
        assert Held(t, b);
        var k :| 0 <= k < |t| && t[k] == b + 2;
        assert t'[k] == b + 2;
      }
    }
  }

  /** The block that a command on slot `i` may change. */
  function Touched(t: seq<nat>, i: nat): set<nat> {
    if i < |t| && t[i] >= 2 then {t[i] - 2} else {}
  }

  /** Block `b` is as it was: allocated, of the same size, with the same contents. */
  ghost predicate Undisturbed(m: seq<nat>, live: map<nat, nat>, m': seq<nat>, live': map<nat, nat>, b: nat) {
    && b in live && b in live' && live'[b] == live[b] && |m'| == |m|
    && forall k :: b + 2 <= k < b + 2 + live[b] && k < |m| ==> m'[k] == m[k]
  }

  /** All allocated blocks but those in `touched` are as they were. */
  ghost predicate OthersKept(m: seq<nat>, live: map<nat, nat>, m': seq<nat>, live': map<nat, nat>, touched: set<nat>) {
    forall b {:trigger Undisturbed(m, live, m', live', b)} :: b in live && b !in touched ==>
      Undisturbed(m, live, m', live', b)
  }

  lemma KeptOthers(m: seq<nat>, live: map<nat, nat>, m': seq<nat>, live': map<nat, nat>, u: map<nat, nat>,
        touched: set<nat>)
    requires Kept(m, m', u)
    requires forall b :: b in live && b !in touched ==> b in u && b in live' && u[b] == live[b] == live'[b]
    ensures OthersKept(m, live, m', live', touched)
  {
  }

  // ---------------------------------------------------------------- pools

  /** The region [from, from + count) of words is no part of a pool. */
  predicate Clear(pools: map<nat, nat>, from: nat, count: nat) {
    forall s :: s in pools ==> from + count <= s + 1 || pools[s] + 2 <= from
  }

  /** All blocks are in pools. */
  lemma ClearIsVacant(g: Shape, len: nat, from: nat, count: nat)
    requires Tiles(g, len) && Clear(g.pools, from, count) && 5 <= from && from + count <= len
    ensures Vacant(g, len, from, count)
  {
    forall x | x in g.span ensures x + 2 + g.span[x] <= from || from + count <= x + 1 {
      assert Tile(g, len, x);
      var s :| s in g.pools && s <= x <= g.pools[s];
      assert Pool(g, s) && Ahead(g, x);
    }
  }

  /** What tlsf_remove_pool asserts: the first block is free, and the one behind it has no size. */
  predicate IsEmptied(a: Allocator, s: nat)
    requires a.Valid() && s in a.g.pools
    reads a, a.mem
    ensures IsEmptied(a, s) <==> Emptied(a.g, s)
  {
    EmptiedWords(a, s);
    FreeBit(a.mem[s + 1]) && !FreeBit(a.mem[a.BlockNext(s) + 1]) && BlockSize(a.mem[a.BlockNext(s) + 1]) == 0
  }

  lemma EmptiedWords(a: Allocator, s: nat)
    requires a.Valid() && s in a.g.pools
    ensures s + 1 < a.mem.Length && (FreeBit(a.mem[s + 1]) ==> a.BlockNext(s) + 1 < a.mem.Length)
    ensures FreeBit(a.mem[s + 1]) ==>
      ((!FreeBit(a.mem[a.BlockNext(s) + 1]) && BlockSize(a.mem[a.BlockNext(s) + 1]) == 0) <==> Emptied(a.g, s))
    ensures Emptied(a.g, s) ==> FreeBit(a.mem[s + 1])
  {
    assert Pool(a.g, s);
    a.NextIsNext(s);
    if s in a.g.free {
      a.NextIsNext(Next(a.g, s));
      assert Ahead(a.g, s);
    }
  }

  // ---------------------------------------------------------------- steps

  /** One call; a command that names no slot or pool of the client, or asks for memory in use, does nothing. */
  method Step(a: Allocator, c: Client, command: Command) returns (c': Client)
    requires a.Valid() && Knows(c, a.g) && 8 * a.mem.Length <= ADDRESS_LIMIT
    modifies a.mem, a`ctl, a`links, a`g
    ensures a.Valid() && Knows(c', a.g) && |c'.slots| == |c.slots|
    ensures forall j :: 0 <= j < |c.slots| && !command.Names(j) ==> c'.slots[j] == c.slots[j]
    ensures OthersKept(old(a.mem[..]), Live(old(a.g)), a.mem[..], Live(a.g), TouchedBy(c.slots, command))
    ensures NoBare(c.pools) && !command.Oversize() ==> NoBare(c'.pools)
  {
    c' := c;
    match command
    case DoMalloc(i, size) =>
      if i < |c.slots| { c' := StepMalloc(a, c, i, size); }
    case DoMemalign(i, k, size) =>
      if i < |c.slots| { c' := StepMemalign(a, c, i, k, size); }
    case DoRealloc(i, size) =>
      if i < |c.slots| { c' := StepRealloc(a, c, i, size); }
    case DoFree(i) =>
      if i < |c.slots| { c' := StepFree(a, c, i); }
    case DoWrite(i, word, value) =>
      if i < |c.slots| { StepWrite(a, c, i, word, value); }
    case DoAddPool(address, bytes) => c' := StepAddPool(a, c, address, bytes);
    case DoRemovePool(pool) => c' := StepRemovePool(a, c, pool);
  }

  predicate NoBare(pools: map<nat, nat>) {
    forall s :: s in pools ==> pools[s] != s
  }

  function TouchedBy(t: seq<nat>, command: Command): set<nat> {
    if command.DoAddPool? || command.DoRemovePool? then {} else Touched(t, command.slot)
  }

  method StepMalloc(a: Allocator, c: Client, i: nat, size: nat) returns (c': Client)
    requires a.Valid() && Knows(c, a.g) && i < |c.slots|
    modifies a.mem, a`ctl, a`links, a`g
    ensures a.Valid() && Knows(c', a.g) && c'.pools == c.pools
    ensures |c'.slots| == |c.slots| && forall j :: 0 <= j < |c.slots| && j != i ==> c'.slots[j] == c.slots[j]
    ensures OthersKept(old(a.mem[..]), Live(old(a.g)), a.mem[..], Live(a.g), Touched(c.slots, i))
  {
    c' := c;
    ghost var m, live := a.mem[..], Live(a.g);
    assert SlotOk(c.slots, live, i);
    if c.slots[i] == NULL && size < SIZE_T {
      var p := a.Malloc(size);
      c' := c.(slots := c.slots[i := p]);
      SlotChanged(c.slots, live, Live(a.g), i, p);
      KeptOthers(m, live, a.mem[..], Live(a.g), live, {});
    }
  }

  method StepMemalign(a: Allocator, c: Client, i: nat, k: nat, size: nat) returns (c': Client)
    requires a.Valid() && Knows(c, a.g) && i < |c.slots| && 8 * a.mem.Length <= ADDRESS_LIMIT
    modifies a.mem, a`ctl, a`links, a`g
    ensures a.Valid() && Knows(c', a.g) && c'.pools == c.pools
    ensures |c'.slots| == |c.slots| && forall j :: 0 <= j < |c.slots| && j != i ==> c'.slots[j] == c.slots[j]
    ensures OthersKept(old(a.mem[..]), Live(old(a.g)), a.mem[..], Live(a.g), Touched(c.slots, i))
  {
    c' := c;
    ghost var m, live := a.mem[..], Live(a.g);
    assert SlotOk(c.slots, live, i);
    if c.slots[i] == NULL && size < SIZE_T && k < 64 {
      var p := a.Memalign(Bits.Pow2(k), size, k);
      c' := c.(slots := c.slots[i := p]);
      SlotChanged(c.slots, live, Live(a.g), i, p);
      KeptOthers(m, live, a.mem[..], Live(a.g), live, {});
    }
  }

  method StepFree(a: Allocator, c: Client, i: nat) returns (c': Client)
    requires a.Valid() && Knows(c, a.g) && i < |c.slots|
    modifies a.mem, a`ctl, a`links, a`g
    ensures a.Valid() && Knows(c', a.g) && c' == c.(slots := c.slots[i := NULL])
    ensures OthersKept(old(a.mem[..]), Live(old(a.g)), a.mem[..], Live(a.g), Touched(c.slots, i))
  {
    ghost var m, live := a.mem[..], Live(a.g);
    assert SlotOk(c.slots, live, i);
    a.Free(c.slots[i]);
    c' := c.(slots := c.slots[i := NULL]);
    SlotChanged(c.slots, live, Live(a.g), i, NULL);
    KeptOthers(m, live, a.mem[..], Live(a.g), Live(a.g), Touched(c.slots, i));
  }

  method StepWrite(a: Allocator, c: Client, i: nat, word: nat, value: nat)
    requires a.Valid() && Knows(c, a.g) && i < |c.slots|
    modifies a.mem
    ensures a.Valid()
    ensures OthersKept(old(a.mem[..]), Live(a.g), a.mem[..], Live(a.g), Touched(c.slots, i))
  {
    ghost var m, live := a.mem[..], Live(a.g);
    assert SlotOk(c.slots, live, i);
    if c.slots[i] != NULL && word < BlockSizeOf(a, c.slots[i]) {
      a.WritePayload(c.slots[i], word, value);
      KeptOthers(m, live, a.mem[..], live, live - {c.slots[i] - 2}, Touched(c.slots, i));
    }
  }

  /** tlsf_block_size, in words. */
  function BlockSizeOf(a: Allocator, p: nat): (n: nat)
    requires a.Valid() && 2 <= p && p - 2 in Live(a.g)
    reads a, a.mem
    ensures n == a.g.span[p - 2]
  {
    a.NextIsNext(p - 2);
    BlockSize(a.mem[p - 1]) / 8
  }

  /** A pointer whose block was trimmed to nothing is given up; the pool is two pools now. */
  method StepRealloc(a: Allocator, c: Client, i: nat, size: nat) returns (c': Client)
    requires a.Valid() && Knows(c, a.g) && i < |c.slots|
    modifies a.mem, a`ctl, a`links, a`g
    ensures a.Valid() && Knows(c', a.g)
    ensures |c'.slots| == |c.slots| && forall j :: 0 <= j < |c.slots| && j != i ==> c'.slots[j] == c.slots[j]
    ensures OthersKept(old(a.mem[..]), Live(old(a.g)), a.mem[..], Live(a.g), Touched(c.slots, i))
    ensures size == 0 || AdjustRequestSize(size, ALIGN_SIZE) != 0 ==> c'.pools == c.pools
  {
    c' := c;
    ghost var m, live := a.mem[..], Live(a.g);
    assert SlotOk(c.slots, live, i);
    if size >= SIZE_T { return; }
    if c.slots[i] != NULL && size != 0 && AdjustRequestSize(size, ALIGN_SIZE) == 0 {
      c' := StepOversize(a, c, i, size);
      return;
    }
    var p := a.Realloc(c.slots[i], size);
    if p != NULL || size == 0 {
      c' := c.(slots := c.slots[i := p]);
      SlotChanged(c.slots, live, Live(a.g), i, p);
      KeptOthers(m, live, a.mem[..], Live(a.g), live - Touched(c.slots, i), Touched(c.slots, i));
    }
  }

  method StepOversize(a: Allocator, c: Client, i: nat, size: nat) returns (c': Client)
    requires a.Valid() && Knows(c, a.g) && i < |c.slots| && c.slots[i] != NULL
    requires 0 < size < SIZE_T && AdjustRequestSize(size, ALIGN_SIZE) == 0
    modifies a.mem, a`ctl, a`links, a`g
    ensures a.Valid() && Knows(c', a.g)
    ensures |c'.slots| == |c.slots| && forall j :: 0 <= j < |c.slots| && j != i ==> c'.slots[j] == c.slots[j]
    ensures OthersKept(old(a.mem[..]), Live(old(a.g)), a.mem[..], Live(a.g), Touched(c.slots, i))
  {
    c' := c;
    ghost var m, g0, live := a.mem[..], a.g, Live(a.g);
    assert SlotOk(c.slots, live, i);
    var b := c.slots[i] - 2;
    var words := BlockSizeOf(a, c.slots[i]);
    ghost var own := OwnPool(a.g, a.mem.Length, b);
    var s :| s in c.pools && s <= b < c.pools[s];
    var p := a.Realloc(c.slots[i], size);
    if words >= 4 {
      SamePool(g0, a.mem.Length, b, s);
      c' := Client(c.slots[i := NULL], c.pools[s := b][b + 1 := c.pools[s]]);
      SlotChanged(c.slots, live, Live(a.g), i, NULL);
      KeptOthers(m, live, a.mem[..], Live(a.g), live - {b}, Touched(c.slots, i));
    } else {
      KeptOthers(m, live, a.mem[..], Live(a.g), live, {});
    }
  }

  /** The pool of an allocated block is the only one it can be. */
  lemma SamePool(g: Shape, len: nat, b: nat, s: nat)
    requires Tiles(g, len) && b in g.span && g.span[b] > 0 && s in g.pools && s <= b < g.pools[s]
    ensures forall t :: t in g.pools && t <= b < g.pools[t] ==> t == s
  {
    DisjointIff(g);
    forall t | t in g.pools && t <= b < g.pools[t] ensures t == s {
      assert Pool(g, s) && Pool(g, t);
      if t != s { OtherPool(g, len, s, b, t); }
    }
  }

  method StepAddPool(a: Allocator, c: Client, address: nat, bytes: nat) returns (c': Client)
    requires a.Valid() && Knows(c, a.g)
    modifies a.mem, a`ctl, a`links, a`g
    ensures a.Valid() && Knows(c', a.g) && c'.slots == c.slots
    ensures OthersKept(old(a.mem[..]), Live(old(a.g)), a.mem[..], Live(a.g), {})
    ensures NoBare(c.pools) ==> NoBare(c'.pools)
  {
    c' := c;
    ghost var m, live := a.mem[..], Live(a.g);
    if bytes >= SIZE_T { return; }
    if AcceptsPool(address, bytes) {
      var from, count := address / 8, bytes / 8;
      if PoolSize(bytes) == BLOCK_SIZE_MAX || from < 5 || from + count > a.mem.Length { return; }
      if !Clear(c.pools, from, count) { return; }
      ClearIsVacant(a.g, a.mem.Length, from, count);
    }
    var pool := a.AddPool(address, bytes);
    if pool != NULL {
      c' := c.(pools := c.pools[pool - 1 := pool + PoolSize(bytes) / 8]);
    }
    KeptOthers(m, live, a.mem[..], Live(a.g), live, {});
  }

  method StepRemovePool(a: Allocator, c: Client, pool: nat) returns (c': Client)
    requires a.Valid() && Knows(c, a.g)
    modifies a.mem, a`ctl, a`links, a`g
    ensures a.Valid() && Knows(c', a.g) && c'.slots == c.slots
    ensures OthersKept(old(a.mem[..]), Live(old(a.g)), a.mem[..], Live(a.g), {})
    ensures NoBare(c.pools) ==> NoBare(c'.pools)
  {
    c' := c;
    ghost var m, live := a.mem[..], Live(a.g);
    if pool >= 1 && pool - 1 in c.pools && IsEmptied(a, pool - 1) {
      a.RemovePool(pool);
      c' := c.(pools := c.pools - {pool - 1});
      KeptOthers(m, live, a.mem[..], Live(a.g), live, {});
    }
  }

  // ---------------------------------------------------------------- runs

  /** No command of the script names slot `i`. */
  predicate LeavesAlone(script: seq<Command>, i: nat) {
    forall c :: c in script ==> !c.Names(i)
  }

  /** Slot `i` holds the same pointer, and the block behind it is as it was. */
  ghost predicate SlotKept(t: seq<nat>, m: seq<nat>, live: map<nat, nat>, t': seq<nat>, m': seq<nat>,
        live': map<nat, nat>, i: nat) {
    i < |t| && i < |t'| && t'[i] == t[i] && (t[i] >= 2 ==> Undisturbed(m, live, m', live', t[i] - 2))
  }

  lemma SlotStaysKept(t: seq<nat>, m: seq<nat>, live: map<nat, nat>, t1: seq<nat>, m1: seq<nat>, live1: map<nat, nat>,
                      t2: seq<nat>, m2: seq<nat>, live2: map<nat, nat>, i: nat, command: Command)
    requires SlotKept(t, m, live, t1, m1, live1, i) && |t2| == |t1| && t2[i] == t1[i] && !command.Names(i)
    requires Owned(t1, live1) && OthersKept(m1, live1, m2, live2, TouchedBy(t1, command))
    ensures SlotKept(t, m, live, t2, m2, live2, i)
  {
    if t[i] >= 2 {
      assert SlotOk(t1, live1, i);
      assert Undisturbed(m1, live1, m2, live2, t[i] - 2);
    }
  }

  /** Any script of calls, pools coming and going, keeps the heap sound and hands out each block once; a block
      whose slot no command names keeps its place, its size and its contents. */
  method Run(a: Allocator, c: Client, script: seq<Command>) returns (c': Client)
    requires a.Valid() && Knows(c, a.g) && 8 * a.mem.Length <= ADDRESS_LIMIT
    modifies a.mem, a`ctl, a`links, a`g
    ensures a.Valid() && Knows(c', a.g) && |c'.slots| == |c.slots|
    ensures forall i :: 0 <= i < |c.slots| && LeavesAlone(script, i) ==>
      SlotKept(c.slots, old(a.mem[..]), Live(old(a.g)), c'.slots, a.mem[..], Live(a.g), i)
    ensures NoBare(c.pools) && (forall k :: 0 <= k < |script| ==> !script[k].Oversize()) ==> NoBare(c'.pools)
  {
    c' := c;
    ghost var m, live := a.mem[..], Live(a.g);
    forall i | 0 <= i < |c.slots| ensures SlotKept(c.slots, m, live, c.slots, m, live, i) {
      assert SlotOk(c.slots, live, i);
    }
    for k := 0 to |script|
      invariant a.Valid() && Knows(c', a.g) && |c'.slots| == |c.slots|
      invariant forall i :: 0 <= i < |c.slots| && LeavesAlone(script[..k], i) ==>
        SlotKept(c.slots, m, live, c'.slots, a.mem[..], Live(a.g), i)
      invariant NoBare(c.pools) && (forall j :: 0 <= j < k ==> !script[j].Oversize()) ==> NoBare(c'.pools)
    {
      ghost var t1, m1, live1 := c'.slots, a.mem[..], Live(a.g);
      c' := Step(a, c', script[k]);
      forall i | 0 <= i < |c.slots| && LeavesAlone(script[..k + 1], i)
        ensures SlotKept(c.slots, m, live, c'.slots, a.mem[..], Live(a.g), i)
      {
        LeavesBefore(script, k, i);
        SlotStaysKept(c.slots, m, live, t1, m1, live1, c'.slots, a.mem[..], Live(a.g), i, script[k]);
      }
    }
    assert script[..|script|] == script;
  }

  lemma LeavesBefore(script: seq<Command>, k: nat, i: nat)
    requires k < |script| && LeavesAlone(script[..k + 1], i)
    ensures LeavesAlone(script[..k], i) && !script[k].Names(i)
  {
    assert script[..k + 1][k] == script[k];
    forall c | c in script[..k] ensures c in script[..k + 1] {
      var j :| 0 <= j < k && script[..k][j] == c;
      assert script[..k + 1][j] == c;
    }
  }

  /** Whatever was done before, freeing all slots leaves every pool there then is a single free block of its
      size, which is what tlsf_remove_pool asks for; a pool whose first block was trimmed to nothing is bare. */
  method FreeAll(a: Allocator, c: Client) returns (c': Client)
    requires a.Valid() && Knows(c, a.g)
    modifies a.mem, a`ctl, a`links, a`g
    ensures a.Valid() && Knows(c', a.g) && c'.pools == c.pools && Live(a.g) == map[]
    ensures forall s :: s in a.g.pools && !Bare(a.g, s) ==> Emptied(a.g, s) && a.g.span[s] == a.g.pools[s] - s - 1
  {
    c' := c;
    for i := 0 to |c.slots|
      invariant a.Valid() && Knows(c', a.g) && |c'.slots| == |c.slots| && c'.pools == c.pools
      invariant forall k :: 0 <= k < i ==> c'.slots[k] == NULL
    {
      c' := StepFree(a, c', i);
    }
    forall b: nat ensures b !in Live(a.g) { assert !Held(c'.slots, b); }
    FullyCoalesced(a.g, a.mem.Length);
  }

  /** Takes back every pool that has a block; only bare ones remain. */
  method RemoveAll(a: Allocator, c: Client) returns (c': Client)
    requires a.Valid() && Knows(c, a.g) && Live(a.g) == map[]
    modifies a.mem, a`ctl, a`links, a`g
    ensures a.Valid() && Knows(c', a.g) && Live(a.g) == map[]
    ensures forall s :: s in c'.pools <==> s in c.pools && c.pools[s] == s
    ensures forall b :: b in a.g.span ==> Bare(a.g, b)
  {
    c' := c;
    var todo := set s | s in c.pools && c.pools[s] != s;
    while todo != {}
      invariant a.Valid() && Knows(c', a.g) && Live(a.g) == map[]
      invariant forall s :: s in c'.pools <==> s in c.pools && (c.pools[s] == s || s in todo)
      invariant forall s :: s in c'.pools ==> c'.pools[s] == c.pools[s]
      invariant forall s :: s in todo ==> s in c.pools && c.pools[s] != s
      decreases |todo|
    {
      var s :| s in todo;
      FullyCoalesced(a.g, a.mem.Length);
      a.RemovePool(s + 1);
      c' := c'.(pools := c'.pools - {s});
      todo := todo - {s};
    }
    OnlyBare(a.g, a.mem.Length);
  }

  lemma OnlyBare(g: Shape, len: nat)
    requires Tiles(g, len) && forall s :: s in g.pools ==> Bare(g, s)
    ensures forall b :: b in g.span ==> Bare(g, b)
  {
    forall b | b in g.span ensures Bare(g, b) {
      assert Tile(g, len, b);
      var s :| s in g.pools && s <= b <= g.pools[s];
    }
  }

  /** tlsf_create_with_pool: a heap whose only pool is everything behind the control words. */
  method CreateWithPool(words: nat) returns (a: Allocator, pool: nat)
    requires 10 <= words && 8 * words < BLOCK_SIZE_MAX
    ensures a.Valid() && fresh(a) && fresh(a.mem) && a.mem.Length == words && Live(a.g) == map[]
    ensures pool >= 5 && a.g.pools.Keys == {pool - 1} && Emptied(a.g, pool - 1)
  {
    var memory := new nat[words];
    a := new Allocator(memory);
    var bytes := 8 * (words - 5);
    PoolSizeOf(words - 5);
    pool := a.AddPool(40, bytes);
  }

  lemma PoolSizeOf(count: nat)
    requires 5 <= count && 8 * count < BLOCK_SIZE_MAX
    ensures PoolSize(8 * count) == 8 * count - POOL_OVERHEAD && (8 * count) / 8 == count
  {
    Bits.ModUnique(8 * count + SIZE_T - POOL_OVERHEAD, SIZE_T, 1, 8 * count - POOL_OVERHEAD);
    AlignDownIsLargest(8 * count - POOL_OVERHEAD, 8);
  }

  /** A whole session: an empty heap, any script of calls with any pools in any memory, then everything freed
      and every pool taken back.  Nothing of the heap is left but the sentinels of pools whose first block was
      trimmed to nothing; without an oversized realloc nothing at all. */
  method Session(words: nat, slots: nat, script: seq<Command>) returns (a: Allocator)
    requires 4 <= words && 8 * words <= ADDRESS_LIMIT
    ensures a.Valid() && Live(a.g) == map[] && forall b :: b in a.g.span ==> Bare(a.g, b)
    ensures (forall k :: 0 <= k < |script| ==> !script[k].Oversize()) ==> a.g.span == map[]
  {
    var memory := new nat[words];
    a := new Allocator(memory);
    var c := Client(seq(slots, _ => NULL), map[]);
    assert Knows(c, a.g);
    c := Run(a, c, script);
    c := FreeAll(a, c);
    c := RemoveAll(a, c);
    if forall k :: 0 <= k < |script| ==> !script[k].Oversize() {
      assert a.g.pools == map[];
      NoPools(a.g, a.mem.Length);
    }
  }

  lemma NoPools(g: Shape, len: nat)
    requires Tiles(g, len) && g.pools == map[]
    ensures g.span == map[]
  {
    forall b: nat ensures b !in g.span {
      assert !InPool(g, b);
      assert !Tile(g, len, b);
    }
  }
}
