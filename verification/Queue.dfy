/** The bounded queue of src/queue.c as interleaved atomic steps of any number of threads.

    A push acquires `freeItems`, takes a ticket, writes its slot and releases `usedItems`; a pop does the
    same with the semaphores exchanged.  Only the semaphores and the tickets are atomic.  A try that fails
    changes nothing, and one that succeeds makes the same steps. */
module Queue {
  import opened Wrappers

  datatype Thread<T> =
    | Idle
    | PushAcquired(item: T)
    | PushTicket(item: T, ticket: nat)
    | PushWritten(ticket: nat)
    | PopAcquired
    | PopTicket(ticket: nat)
    | PopRead(ticket: nat, item: T)
  {
    predicate Pushing() { PushAcquired? || PushTicket? || PushWritten? }
    predicate Popping() { PopAcquired? || PopTicket? || PopRead? }
  }

  /** The queue, its threads, and the history: items in the order of their tickets, the items that pops have
      returned and their tickets, and how many writes, reads, pushes and pops have been made. */
  datatype State<T> = State(
    free: nat, used: nat, head: nat, tail: nat, items: seq<T>, threads: seq<Thread<T>>,
    pushed: seq<T>, popped: seq<T>, taken: seq<nat>, writes: nat, fetched: nat, pushes: nat, pops: nat)
  {
    function Capacity(): nat { |items| }
  }

  datatype Step<T> = BeginPush(item: T) | BeginPop | Advance

  datatype Event<T> = Event(thread: nat, step: Step<T>)

  predicate Enabled<T>(s: State<T>, e: Event<T>) {
    && e.thread < |s.threads| && s.Capacity() > 0
    && match e.step
       case BeginPush(_) => s.threads[e.thread].Idle? && s.free > 0
       case BeginPop => s.threads[e.thread].Idle? && s.used > 0
       case Advance => !s.threads[e.thread].Idle?
  }

  function Next<T>(s: State<T>, e: Event<T>): State<T>
    requires Enabled(s, e)
  {
    match e.step
    case BeginPush(item) => s.(free := s.free - 1, threads := s.threads[e.thread := PushAcquired(item)])
    case BeginPop => s.(used := s.used - 1, threads := s.threads[e.thread := PopAcquired])
    case Advance => Advanced(s, e.thread)
  }

  function Advanced<T>(s: State<T>, i: nat): State<T>
    requires i < |s.threads| && !s.threads[i].Idle? && s.Capacity() > 0
  {
    match s.threads[i]
    case PushAcquired(item) =>
      s.(tail := s.tail + 1, pushed := s.pushed + [item], threads := s.threads[i := PushTicket(item, s.tail)])
    case PushTicket(item, ticket) =>
      s.(items := s.items[ticket % s.Capacity() := item], writes := s.writes + 1,
         threads := s.threads[i := PushWritten(ticket)])
    case PushWritten(ticket) =>
      s.(used := s.used + 1, pushes := s.pushes + 1, threads := s.threads[i := Idle])
    case PopAcquired =>
      s.(head := s.head + 1, threads := s.threads[i := PopTicket(s.head)])
    case PopTicket(ticket) =>
      s.(fetched := s.fetched + 1, threads := s.threads[i := PopRead(ticket, s.items[ticket % s.Capacity()])])
    case PopRead(ticket, item) =>
      s.(free := s.free + 1, pops := s.pops + 1, threads := s.threads[i := Idle],
         popped := s.popped + [item], taken := s.taken + [ticket])
  }

  predicate AllIdle<T>(threads: seq<Thread<T>>) {
    forall i :: 0 <= i < |threads| ==> threads[i].Idle?
  }

  /** A new queue, over slots with arbitrary contents. */
  function Init<T>(slots: seq<T>, threads: seq<Thread<T>>): State<T> {
    State(|slots|, 0, 0, 0, slots, threads, [], [], [], 0, 0, 0, 0)
  }

  /** A run; None if it comes to a step that is not enabled. */
  function Exec<T>(s: State<T>, events: seq<Event<T>>): Option<State<T>>
    decreases |events|
  {
    if events == [] then Some(s)
    else if Enabled(s, events[0]) then Exec(Next(s, events[0]), events[1..])
    else None
  }

  // ---------------------------------------------------------------- counting threads

  function Count<T(!new)>(threads: seq<Thread<T>>, p: Thread<T> -> bool): nat {
    if threads == [] then 0
    else Count(threads[..|threads| - 1], p) + (if p(threads[|threads| - 1]) then 1 else 0)
  }

  lemma {:induction false} CountUpdate<T(!new)>(threads: seq<Thread<T>>, p: Thread<T> -> bool, i: nat, x: Thread<T>)
    requires i < |threads|
    ensures Count(threads[i := x], p) + (if p(threads[i]) then 1 else 0) == Count(threads, p) + (if p(x) then 1 else 0)
    decreases |threads|
  {
    var n := |threads| - 1;
    if i == n {
      assert threads[i := x][..n] == threads[..n];
    } else {
      assert threads[i := x][..n] == threads[..n][i := x];
      CountUpdate(threads[..n], p, i, x);
    }
  }

  lemma {:induction false} CountNone<T(!new)>(threads: seq<Thread<T>>, p: Thread<T> -> bool)
    ensures Count(threads, p) == 0 <==> forall i :: 0 <= i < |threads| ==> !p(threads[i])
    decreases |threads|
  {
    if threads != [] { CountNone(threads[..|threads| - 1], p); }
  }

  /** When at most one thread counts, it is the only one. */
  lemma {:induction false} CountOne<T(!new)>(threads: seq<Thread<T>>, p: Thread<T> -> bool, i: nat, j: nat)
    requires i < j < |threads| && p(threads[i]) && p(threads[j])
    ensures Count(threads, p) >= 2
    decreases |threads|
  {
    var n := |threads| - 1;
    if j == n {
      CountNone(threads[..n], p);
      assert p(threads[..n][i]);
    } else {
      CountOne(threads[..n], p, i, j);
    }
  }

  /** A kind of threads is counted exactly where it is part of another. */
  lemma {:induction false} CountLess<T(!new)>(threads: seq<Thread<T>>, p: Thread<T> -> bool, q: Thread<T> -> bool)
    requires forall t :: q(t) ==> p(t)
    ensures Count(threads, q) <= Count(threads, p)
    decreases |threads|
  {
    if threads != [] { CountLess(threads[..|threads| - 1], p, q); }
  }

  /** With a single thread of one kind, parts of that kind are counted by looking at this thread. */
  lemma {:induction false} CountSole<T(!new)>(threads: seq<Thread<T>>, p: Thread<T> -> bool, q: Thread<T> -> bool,
        i: nat)
    requires i < |threads| && Count(threads, p) <= 1 && p(threads[i]) && forall t :: q(t) ==> p(t)
    ensures Count(threads, q) == if q(threads[i]) then 1 else 0
    decreases |threads|
  {
    var n := |threads| - 1;
    CountLess(threads[..n], p, q);
    if i < n {
      assert threads[..n][i] == threads[i];
      if p(threads[n]) { CountOne(threads, p, i, n); }
      CountSole(threads[..n], p, q, i);
    } else {
      assert Count(threads[..n], p) == 0;
    }
  }

  // ---------------------------------------------------------------- permits, for any number of threads

  function Pushing<T(!new)>(threads: seq<Thread<T>>): nat { Count(threads, (t: Thread<T>) => t.Pushing()) }
  function Popping<T(!new)>(threads: seq<Thread<T>>): nat { Count(threads, (t: Thread<T>) => t.Popping()) }
  function Ticketed<T(!new)>(threads: seq<Thread<T>>): nat {
    Count(threads, (t: Thread<T>) => t.PushTicket? || t.PushWritten?)
  }
  function Written<T(!new)>(threads: seq<Thread<T>>): nat { Count(threads, (t: Thread<T>) => t.PushWritten?) }
  function Taking<T(!new)>(threads: seq<Thread<T>>): nat {
    Count(threads, (t: Thread<T>) => t.PopTicket? || t.PopRead?)
  }
  function Taken<T(!new)>(threads: seq<Thread<T>>): nat { Count(threads, (t: Thread<T>) => t.PopRead?) }

  lemma ThreadChanges<T(!new)>(threads: seq<Thread<T>>, i: nat, x: Thread<T>)
    requires i < |threads|
    ensures var t, o := threads[i := x], threads[i];
      && Pushing(t) + (if o.Pushing() then 1 else 0) == Pushing(threads) + (if x.Pushing() then 1 else 0)
      && Popping(t) + (if o.Popping() then 1 else 0) == Popping(threads) + (if x.Popping() then 1 else 0)
      && Ticketed(t) + (if o.PushTicket? || o.PushWritten? then 1 else 0)
         == Ticketed(threads) + (if x.PushTicket? || x.PushWritten? then 1 else 0)
      && Written(t) + (if o.PushWritten? then 1 else 0) == Written(threads) + (if x.PushWritten? then 1 else 0)
      && Taking(t) + (if o.PopTicket? || o.PopRead? then 1 else 0)
         == Taking(threads) + (if x.PopTicket? || x.PopRead? then 1 else 0)
      && Taken(t) + (if o.PopRead? then 1 else 0) == Taken(threads) + (if x.PopRead? then 1 else 0)
  {
    CountUpdate(threads, (t: Thread<T>) => t.Pushing(), i, x);
    CountUpdate(threads, (t: Thread<T>) => t.Popping(), i, x);
    CountUpdate(threads, (t: Thread<T>) => t.PushTicket? || t.PushWritten?, i, x);
    CountUpdate(threads, (t: Thread<T>) => t.PushWritten?, i, x);
    CountUpdate(threads, (t: Thread<T>) => t.PopTicket? || t.PopRead?, i, x);
    CountUpdate(threads, (t: Thread<T>) => t.PopRead?, i, x);
  }

  /** Every permit is free, used, or held by a push or a pop in flight; tickets, writes and reads are those
      of finished calls and of the calls in flight that have got that far. */
  ghost predicate Tally<T(!new)>(s: State<T>) {
    && s.free + s.pushes + Pushing(s.threads) == s.Capacity() + s.pops
    && s.used + s.pops + Popping(s.threads) == s.pushes
    && s.tail == s.pushes + Ticketed(s.threads) == |s.pushed|
    && s.writes == s.pushes + Written(s.threads)
    && s.head == s.pops + Taking(s.threads)
    && s.fetched == s.pops + Taken(s.threads)
    && |s.taken| == |s.popped| == s.pops
  }

  lemma TallyKept<T(!new)>(s: State<T>, e: Event<T>)
    requires Tally(s) && Enabled(s, e)
    ensures Tally(Next(s, e)) && Next(s, e).Capacity() == s.Capacity()
  {
    ThreadChanges(s.threads, e.thread, Next(s, e).threads[e.thread]);
    assert s.threads[e.thread := Next(s, e).threads[e.thread]] == Next(s, e).threads;
  }

  lemma TallyInit<T(!new)>(slots: seq<T>, threads: seq<Thread<T>>)
    requires AllIdle(threads)
    ensures Tally(Init(slots, threads))
  {
    CountNone(threads, (t: Thread<T>) => t.Pushing());
    CountNone(threads, (t: Thread<T>) => t.Popping());
    CountNone(threads, (t: Thread<T>) => t.PushTicket? || t.PushWritten?);
    CountNone(threads, (t: Thread<T>) => t.PushWritten?);
    CountNone(threads, (t: Thread<T>) => t.PopTicket? || t.PopRead?);
    CountNone(threads, (t: Thread<T>) => t.PopRead?);
  }

  lemma {:induction false} RunTally<T(!new)>(s: State<T>, events: seq<Event<T>>)
    requires Tally(s) && Exec(s, events).Some?
    ensures Tally(Exec(s, events).value) && Exec(s, events).value.Capacity() == s.Capacity()
    decreases |events|
  {
    if events != [] {
      TallyKept(s, events[0]);
      RunTally(Next(s, events[0]), events[1..]);
    }
  }

  /** Permits are conserved under every interleaving of any number of threads, so that no semaphore ever
      exceeds the capacity it was created with. */
  lemma PermitsConserved<T(!new)>(slots: seq<T>, threads: seq<Thread<T>>, events: seq<Event<T>>)
    requires AllIdle(threads) && Exec(Init(slots, threads), events).Some?
    ensures var s := Exec(Init(slots, threads), events).value;
      && s.free + s.used + Pushing(s.threads) + Popping(s.threads) == |slots|
      && s.free <= |slots| && s.used <= |slots| && s.head <= s.pushes <= s.tail <= s.pops + |slots|
  {
    TallyInit(slots, threads);
    RunTally(Init(slots, threads), events);
    var t := Exec(Init(slots, threads), events).value.threads;
    CountLess(t, (t: Thread<T>) => t.Popping(), (t: Thread<T>) => t.PopTicket? || t.PopRead?);
    CountLess(t, (t: Thread<T>) => t.Pushing(), (t: Thread<T>) => t.PushTicket? || t.PushWritten?);
  }

  // ---------------------------------------------------------------- what pops return, for any number of threads

  /** What a slot may hold: its first contents, or an item pushed with a ticket of this slot. */
  ghost predicate Origin<T(!new)>(slots: seq<T>, pushed: seq<T>, slot: nat, x: T) {
    slot < |slots| && (x == slots[slot] || exists u :: Ticket(|slots|, pushed, slot, u, x))
  }

  predicate Ticket<T(==)>(capacity: nat, pushed: seq<T>, slot: nat, u: nat, x: T)
    requires 0 < capacity
  {
    u < |pushed| && u % capacity == slot && pushed[u] == x
  }

  predicate Taker<T>(t: Thread<T>) { t.PopTicket? || t.PopRead? }

  ghost predicate ThreadTraced<T(!new)>(slots: seq<T>, s: State<T>, t: Thread<T>)
    requires 0 < |slots|
  {
    && (t.PushTicket? ==> Ticket(|slots|, s.pushed, t.ticket % |slots|, t.ticket, t.item))
    && (Taker(t) ==> t.ticket < s.head && t.ticket !in s.taken)
    && (t.PopRead? ==> Origin(slots, s.pushed, t.ticket % |slots|, t.item))
  }

  ghost predicate Traced<T(!new)>(slots: seq<T>, s: State<T>) {
    && 0 < |slots| == s.Capacity() && |s.taken| == |s.popped|
    && (forall i :: 0 <= i < |slots| ==> Origin(slots, s.pushed, i, s.items[i]))
    && (forall i :: 0 <= i < |s.threads| ==> ThreadTraced(slots, s, s.threads[i]))
    && (forall i, j :: 0 <= i < j < |s.threads| && Taker(s.threads[i]) && Taker(s.threads[j]) ==>
          s.threads[i].ticket != s.threads[j].ticket)
    && (forall k :: 0 <= k < |s.taken| ==>
          s.taken[k] < s.head && Origin(slots, s.pushed, s.taken[k] % |slots|, s.popped[k]))
    && (forall k, l :: 0 <= k < l < |s.taken| ==> s.taken[k] != s.taken[l])
  }

  lemma OriginGrows<T(!new)>(slots: seq<T>, pushed: seq<T>, item: T, slot: nat, x: T)
    requires Origin(slots, pushed, slot, x)
    ensures Origin(slots, pushed + [item], slot, x)
  {
    if u :| Ticket(|slots|, pushed, slot, u, x) { assert Ticket(|slots|, pushed + [item], slot, u, x); }
  }

  lemma PushingTraced<T(!new)>(slots: seq<T>, s: State<T>, i: nat)
    requires Traced(slots, s) && i < |s.threads| && s.threads[i].PushAcquired?
    requires |s.pushed| == s.tail
    ensures Traced(slots, Advanced(s, i))
  {
    var item, s' := s.threads[i].item, Advanced(s, i);
    forall slot, x | Origin(slots, s.pushed, slot, x) ensures Origin(slots, s'.pushed, slot, x) {
      OriginGrows(slots, s.pushed, item, slot, x);
    }
    forall j | 0 <= j < |s.threads| ensures ThreadTraced(slots, s', s'.threads[j]) {
      assert ThreadTraced(slots, s, s.threads[j]);
    }
  }

  lemma WritingTraced<T(!new)>(slots: seq<T>, s: State<T>, i: nat)
    requires Traced(slots, s) && i < |s.threads| && s.threads[i].PushTicket?
    ensures Traced(slots, Advanced(s, i))
  {
    var t, s' := s.threads[i], Advanced(s, i);
    assert ThreadTraced(slots, s, t);
    assert Origin(slots, s'.pushed, t.ticket % |slots|, t.item);
    forall j | 0 <= j < |s.threads| ensures ThreadTraced(slots, s', s'.threads[j]) {
      assert ThreadTraced(slots, s, s.threads[j]);
    }
  }

  lemma TakingTraced<T(!new)>(slots: seq<T>, s: State<T>, i: nat)
    requires Traced(slots, s) && i < |s.threads| && (s.threads[i].Popping() || s.threads[i].PushWritten?)
    ensures Traced(slots, Advanced(s, i))
  {
    var s' := Advanced(s, i);
    forall j | 0 <= j < |s.threads| ensures ThreadTraced(slots, s', s'.threads[j]) {
      assert ThreadTraced(slots, s, s.threads[j]) && ThreadTraced(slots, s, s.threads[i]);
    }
    forall k | 0 <= k < |s'.taken|
      ensures s'.taken[k] < s'.head && Origin(slots, s'.pushed, s'.taken[k] % |slots|, s'.popped[k])
    {
      assert ThreadTraced(slots, s, s.threads[i]);
    }
  }

  lemma TracedKept<T(!new)>(slots: seq<T>, s: State<T>, e: Event<T>)
    requires Traced(slots, s) && Tally(s) && Enabled(s, e)
    ensures Traced(slots, Next(s, e))
  {
    if !e.step.Advance? {
      forall j | 0 <= j < |s.threads| ensures ThreadTraced(slots, Next(s, e), Next(s, e).threads[j]) {
        assert ThreadTraced(slots, s, s.threads[j]);
      }
    } else {
      match s.threads[e.thread]
      case PushAcquired(_) => PushingTraced(slots, s, e.thread);
      case PushTicket(_, _) => WritingTraced(slots, s, e.thread);
      case _ => TakingTraced(slots, s, e.thread);
    }
  }

  lemma {:induction false} RunTraced<T(!new)>(slots: seq<T>, s: State<T>, events: seq<Event<T>>)
    requires Traced(slots, s) && Tally(s) && Exec(s, events).Some?
    ensures Traced(slots, Exec(s, events).value)
    decreases |events|
  {
    if events != [] {
      TracedKept(slots, s, events[0]);
      TallyKept(s, events[0]);
      RunTraced(slots, Next(s, events[0]), events[1..]);
    }
  }

  /** Under every interleaving of any number of threads no two pops return under the same ticket, and each
      returns what its slot held at first or what some push of this slot has been given. */
  lemma NothingInvented<T(!new)>(slots: seq<T>, threads: seq<Thread<T>>, events: seq<Event<T>>)
    requires AllIdle(threads) && |slots| > 0 && Exec(Init(slots, threads), events).Some?
    ensures var s := Exec(Init(slots, threads), events).value;
      && |s.taken| == |s.popped|
      && (forall k, l :: 0 <= k < l < |s.taken| ==> s.taken[k] != s.taken[l])
      && (forall k :: 0 <= k < |s.taken| ==> Origin(slots, s.pushed, s.taken[k] % |slots|, s.popped[k]))
  {
    TallyInit(slots, threads);
    RunTraced(slots, Init(slots, threads), events);
  }

  // ---------------------------------------------------------------- first in, first out

  /** No two pushes overlap, and no two pops. */
  ghost predicate Exclusive<T(!new)>(s: State<T>) {
    Pushing(s.threads) <= 1 && Popping(s.threads) <= 1
  }

  /** First in, first out: what was returned is a prefix of what was pushed. */
  predicate InOrder<T(==)>(s: State<T>) {
    |s.popped| <= |s.pushed| && s.popped == s.pushed[..|s.popped|]
  }

  /** Every pop returned the item of its ticket. */
  predicate OwnItems<T(==)>(s: State<T>) {
    |s.taken| == |s.popped| && forall k :: 0 <= k < |s.taken| ==>
      s.taken[k] < |s.pushed| && s.popped[k] == s.pushed[s.taken[k]]
  }

  /** A pop that is about to return has the item of its ticket. */
  predicate HoldsOwn<T(==)>(t: Thread<T>, pushed: seq<T>) {
    t.PopRead? ==> t.ticket < |pushed| && pushed[t.ticket] == t.item
  }

  /** The slots from the reader to the writer hold what was pushed there, what has been read but not returned is
      what was pushed, and what was returned is a prefix. */
  ghost predicate Ordered<T(!new)>(s: State<T>) {
    && Tally(s) && s.Capacity() > 0
    && (forall i :: 0 <= i < |s.threads| && s.threads[i].PushTicket? ==>
          s.threads[i].ticket + 1 == s.tail && s.pushed[s.threads[i].ticket] == s.threads[i].item)
    && (forall i :: 0 <= i < |s.threads| && (s.threads[i].PopTicket? || s.threads[i].PopRead?) ==>
          s.threads[i].ticket + 1 == s.head)
    && (forall i :: 0 <= i < |s.threads| ==> HoldsOwn(s.threads[i], s.pushed))
    && InOrder(s) && (forall k :: 0 <= k < |s.taken| ==> s.taken[k] == k)
    && (forall t :: s.fetched <= t < s.writes && t < |s.pushed| ==> s.items[t % s.Capacity()] == s.pushed[t])
  }

  lemma SlotsDiffer(t: nat, u: nat, cap: nat)
    requires t < u < t + cap
    ensures t % cap != u % cap
  {
    var d := u / cap - t / cap;
    NoMultipleBetween(cap, d);
    assert t % cap == u % cap ==> u - t == cap * d;
  }

  lemma NoMultipleBetween(cap: nat, d: int)
    ensures cap * d <= 0 || cap <= cap * d
  {
    if d >= 1 { assert cap * d == cap + cap * (d - 1); }
  }

  lemma SolePusher<T(!new)>(s: State<T>, i: nat)
    requires Tally(s) && Exclusive(s) && i < |s.threads| && s.threads[i].Pushing()
    ensures Ticketed(s.threads) == if s.threads[i].PushAcquired? then 0 else 1
    ensures Written(s.threads) == if s.threads[i].PushWritten? then 1 else 0
    ensures Pushing(s.threads) == 1
    ensures forall k :: 0 <= k < |s.threads| && k != i ==> !s.threads[k].Pushing()
  {
    CountNone(s.threads, (t: Thread<T>) => t.Pushing());
    CountSole(s.threads, (t: Thread<T>) => t.Pushing(), (t: Thread<T>) => t.PushTicket? || t.PushWritten?, i);
    CountSole(s.threads, (t: Thread<T>) => t.Pushing(), (t: Thread<T>) => t.PushWritten?, i);
    forall k | 0 <= k < |s.threads| && k != i ensures !s.threads[k].Pushing() {
      if s.threads[k].Pushing() {
        CountOne(s.threads, (t: Thread<T>) => t.Pushing(), if k < i then k else i, if k < i then i else k);
      }
    }
  }

  lemma SolePopper<T(!new)>(s: State<T>, i: nat)
    requires Tally(s) && Exclusive(s) && i < |s.threads| && s.threads[i].Popping()
    ensures Taking(s.threads) == if s.threads[i].PopAcquired? then 0 else 1
    ensures Taken(s.threads) == if s.threads[i].PopRead? then 1 else 0
    ensures Popping(s.threads) == 1
    ensures forall k :: 0 <= k < |s.threads| && k != i ==> !s.threads[k].Popping()
  {
    CountNone(s.threads, (t: Thread<T>) => t.Popping());
    CountSole(s.threads, (t: Thread<T>) => t.Popping(), (t: Thread<T>) => t.PopTicket? || t.PopRead?, i);
    CountSole(s.threads, (t: Thread<T>) => t.Popping(), (t: Thread<T>) => t.PopRead?, i);
    forall k | 0 <= k < |s.threads| && k != i ensures !s.threads[k].Popping() {
      if s.threads[k].Popping() {
        CountOne(s.threads, (t: Thread<T>) => t.Popping(), if k < i then k else i, if k < i then i else k);
      }
    }
  }

  /** A write never hits a slot that has still to be read: its ticket is within a capacity of the reader. */
  lemma WriteIsSafe<T(!new)>(s: State<T>, i: nat)
    requires Ordered(s) && Exclusive(s) && i < |s.threads| && s.threads[i].PushTicket?
    ensures s.threads[i].ticket == s.writes && s.writes < s.fetched + s.Capacity()
    ensures forall t :: s.fetched <= t < s.writes ==> t % s.Capacity() != s.threads[i].ticket % s.Capacity()
  {
    SolePusher(s, i);
    forall t | s.fetched <= t < s.writes ensures t % s.Capacity() != s.writes % s.Capacity() {
      SlotsDiffer(t, s.writes, s.Capacity());
    }
  }

  /** A read finds the item of its ticket, which has been written. */
  lemma ReadIsSafe<T(!new)>(s: State<T>, i: nat)
    requires Ordered(s) && Exclusive(s) && i < |s.threads| && s.threads[i].PopTicket?
    ensures s.threads[i].ticket == |s.popped| == s.fetched < s.writes <= |s.pushed|
    ensures s.items[s.threads[i].ticket % s.Capacity()] == s.pushed[s.threads[i].ticket]
  {
    SolePopper(s, i);
    CountLess(s.threads, (t: Thread<T>) => t.PushTicket? || t.PushWritten?, (t: Thread<T>) => t.PushWritten?);
  }

  lemma WriteKeepsOrder<T(!new)>(s: State<T>, i: nat)
    requires Ordered(s) && Exclusive(s) && i < |s.threads| && s.threads[i].PushTicket?
    requires Tally(Advanced(s, i))
    ensures Ordered(Advanced(s, i))
  {
    WriteIsSafe(s, i);
    SolePusher(s, i);
  }

  lemma ReadKeepsOrder<T(!new)>(s: State<T>, i: nat)
    requires Ordered(s) && Exclusive(s) && i < |s.threads| && s.threads[i].PopTicket?
    requires Tally(Advanced(s, i))
    ensures Ordered(Advanced(s, i))
  {
    ReadIsSafe(s, i);
    SolePopper(s, i);
  }

  lemma ReturnKeepsOrder<T(!new)>(s: State<T>, i: nat)
    requires Ordered(s) && Exclusive(s) && i < |s.threads| && s.threads[i].PopRead?
    requires Tally(Advanced(s, i))
    ensures Ordered(Advanced(s, i))
  {
    SolePopper(s, i);
    assert HoldsOwn(s.threads[i], s.pushed);
  }

  lemma TicketKeepsOrder<T(!new)>(s: State<T>, i: nat)
    requires Ordered(s) && Exclusive(s) && i < |s.threads| && (s.threads[i].PushAcquired? || s.threads[i].PopAcquired?)
    requires Tally(Advanced(s, i))
    ensures Ordered(Advanced(s, i))
  {
    if s.threads[i].PushAcquired? { SolePusher(s, i); } else { SolePopper(s, i); }
  }

  lemma OrderedKept<T(!new)>(s: State<T>, e: Event<T>)
    requires Ordered(s) && Exclusive(s) && Enabled(s, e)
    ensures Ordered(Next(s, e))
  {
    TallyKept(s, e);
    match s.threads[e.thread]
    case PushAcquired(_) => TicketKeepsOrder(s, e.thread);
    case PopAcquired => TicketKeepsOrder(s, e.thread);
    case PushTicket(_, _) => WriteKeepsOrder(s, e.thread);
    case PopTicket(_) => ReadKeepsOrder(s, e.thread);
    case PopRead(_, _) => ReturnKeepsOrder(s, e.thread);
    case _ => {}
  }

  /** All states of a run have no overlapping pushes and no overlapping pops. */
  ghost predicate ExclusiveRun<T(!new)>(s: State<T>, events: seq<Event<T>>)
    decreases |events|
  {
    Exclusive(s) && (events != [] ==> Enabled(s, events[0]) && ExclusiveRun(Next(s, events[0]), events[1..]))
  }

  lemma {:induction false} RunOrdered<T(!new)>(s: State<T>, events: seq<Event<T>>)
    requires Ordered(s) && ExclusiveRun(s, events)
    ensures Exec(s, events).Some? && Ordered(Exec(s, events).value)
    decreases |events|
  {
    if events != [] {
      OrderedKept(s, events[0]);
      RunOrdered(Next(s, events[0]), events[1..]);
    }
  }

  /** First in, first out under every interleaving in which pushes do not overlap and pops do not; at rest
      the queue holds exactly what has been pushed and not popped. */
  lemma FirstInFirstOut<T(!new)>(slots: seq<T>, threads: seq<Thread<T>>, events: seq<Event<T>>)
    requires AllIdle(threads) && |slots| > 0 && ExclusiveRun(Init(slots, threads), events)
    ensures Exec(Init(slots, threads), events).Some?
    ensures var s := Exec(Init(slots, threads), events).value;
      && InOrder(s) && OwnItems(s) && (forall i :: 0 <= i < |s.threads| ==> HoldsOwn(s.threads[i], s.pushed))
      && (AllIdle(s.threads) ==> s.used == |s.pushed| - |s.popped| && s.free == |slots| - s.used)
  {
    TallyInit(slots, threads);
    RunOrdered(Init(slots, threads), events);
    RunTally(Init(slots, threads), events);
    var s := Exec(Init(slots, threads), events).value;
    if AllIdle(s.threads) { RestingCounts(s.threads); }
  }

  lemma RestingCounts<T(!new)>(threads: seq<Thread<T>>)
    requires AllIdle(threads)
    ensures Pushing(threads) == Popping(threads) == Ticketed(threads) == Taken(threads) == 0
  {
    CountNone(threads, (t: Thread<T>) => t.Pushing());
    CountNone(threads, (t: Thread<T>) => t.Popping());
    CountNone(threads, (t: Thread<T>) => t.PushTicket? || t.PushWritten?);
    CountNone(threads, (t: Thread<T>) => t.PopRead?);
  }

  // ---------------------------------------------------------------- one pusher and one popper

  /** Thread `a` alone pushes, thread `b` alone pops. */
  predicate Paired<T>(e: Event<T>, a: nat, b: nat) {
    (e.step.BeginPush? ==> e.thread == a) && (e.step.BeginPop? ==> e.thread == b)
  }

  ghost predicate OnlyPair<T(!new)>(s: State<T>, a: nat, b: nat) {
    forall i :: 0 <= i < |s.threads| ==> (s.threads[i].Pushing() ==> i == a) && (s.threads[i].Popping() ==> i == b)
  }

  lemma {:induction false} CountAtMostOne<T(!new)>(threads: seq<Thread<T>>, p: Thread<T> -> bool, a: nat)
    requires forall i :: 0 <= i < |threads| && p(threads[i]) ==> i == a
    ensures Count(threads, p) <= 1
    decreases |threads|
  {
    if threads != [] {
      var n := |threads| - 1;
      if p(threads[n]) { CountNone(threads[..n], p); } else { CountAtMostOne(threads[..n], p, a); }
    }
  }

  /** With one pusher and one popper no run has overlaps, and so each is first in, first out. */
  lemma {:induction false} OnePairIsExclusive<T(!new)>(s: State<T>, events: seq<Event<T>>, a: nat, b: nat)
    requires OnlyPair(s, a, b) && Exec(s, events).Some? && forall e :: e in events ==> Paired(e, a, b)
    ensures ExclusiveRun(s, events)
    decreases |events|
  {
    CountAtMostOne(s.threads, (t: Thread<T>) => t.Pushing(), a);
    CountAtMostOne(s.threads, (t: Thread<T>) => t.Popping(), b);
    if events != [] {
      PairKept(s, events[0], a, b);
      OnePairIsExclusive(Next(s, events[0]), events[1..], a, b);
    }
  }

  lemma PairKept<T(!new)>(s: State<T>, e: Event<T>, a: nat, b: nat)
    requires OnlyPair(s, a, b) && Enabled(s, e) && Paired(e, a, b)
    ensures OnlyPair(Next(s, e), a, b)
  {
  }

  // ---------------------------------------------------------------- overlapping calls

  lemma {:induction false} ExecAppend<T>(s: State<T>, a: seq<Event<T>>, b: seq<Event<T>>)
    requires Exec(s, a).Some?
    ensures Exec(s, a + b) == Exec(Exec(s, a).value, b)
    decreases |a|
  {
    if a == [] {
      assert a + b == b;
    } else {
      assert (a + b)[1..] == a[1..] + b;
      ExecAppend(Next(s, a[0]), a[1..], b);
    }
  }

  lemma ExecOne<T>(s: State<T>, e: Event<T>)
    requires Enabled(s, e)
    ensures Exec(s, [e]) == Some(Next(s, e))
  {
  }

  /** A call without interruption. */
  function Call<T>(i: nat, begin: Step<T>): seq<Event<T>> {
    [Event(i, begin), Event(i, Advance), Event(i, Advance), Event(i, Advance)]
  }

  /** A call begins and takes its ticket. */
  lemma AfterTwo<T(!new)>(s: State<T>, i: nat, begin: Step<T>) returns (r: State<T>)
    requires Enabled(s, Event(i, begin)) && !begin.Advance?
    ensures Exec(s, [Event(i, begin), Event(i, Advance)]) == Some(r)
    ensures begin.BeginPush? ==>
      r == s.(free := s.free - 1, tail := s.tail + 1, pushed := s.pushed + [begin.item],
              threads := s.threads[i := PushTicket(begin.item, s.tail)])
    ensures begin.BeginPop? ==>
      r == s.(used := s.used - 1, head := s.head + 1, threads := s.threads[i := PopTicket(s.head)])
  {
    var m := Next(s, Event(i, begin));
    r := Next(m, Event(i, Advance));
    ExecOne(s, Event(i, begin));
    ExecOne(m, Event(i, Advance));
    ExecAppend(s, [Event(i, begin)], [Event(i, Advance)]);
    assert [Event(i, begin)] + [Event(i, Advance)] == [Event(i, begin), Event(i, Advance)];
    assert r.threads == s.threads[i := r.threads[i]];
  }

  lemma LastTwo<T(!new)>(s: State<T>, i: nat) returns (r: State<T>)
    requires i < |s.threads| && s.Capacity() > 0 && (s.threads[i].PushTicket? || s.threads[i].PopTicket?)
    ensures Exec(s, [Event(i, Advance), Event(i, Advance)]) == Some(r)
    ensures var t := s.threads[i];
      r == (if t.PushTicket?
            then s.(used := s.used + 1, items := s.items[t.ticket % s.Capacity() := t.item], writes := s.writes + 1,
                    pushes := s.pushes + 1, threads := s.threads[i := Idle])
            else s.(free := s.free + 1, popped := s.popped + [s.items[t.ticket % s.Capacity()]],
                    fetched := s.fetched + 1, pops := s.pops + 1, taken := s.taken + [t.ticket],
                    threads := s.threads[i := Idle]))
  {
    var e := Event(i, Advance);
    var m := Next(s, e);
    r := Next(m, e);
    ExecOne(s, e);
    ExecOne(m, e);
    ExecAppend(s, [e], [e]);
    assert [e] + [e] == [e, e];
    assert r.threads == s.threads[i := Idle];
  }

  lemma WholeCall<T(!new)>(s: State<T>, i: nat, begin: Step<T>) returns (r: State<T>)
    requires Enabled(s, Event(i, begin)) && !begin.Advance?
    ensures Exec(s, Call(i, begin)) == Some(r)
    ensures r.threads == s.threads
    ensures r.items == if begin.BeginPush? then s.items[s.tail % s.Capacity() := begin.item] else s.items
    ensures r.pushed == s.pushed + (if begin.BeginPush? then [begin.item] else [])
    ensures r.popped == s.popped + (if begin.BeginPop? then [s.items[s.head % s.Capacity()]] else [])
    ensures r.taken == s.taken + (if begin.BeginPop? then [s.head] else [])
    ensures begin.BeginPush? ==>
      r.free == s.free - 1 && r.used == s.used + 1 && r.tail == s.tail + 1 && r.head == s.head
    ensures begin.BeginPop? ==> r.free == s.free + 1 && r.used == s.used - 1 && r.tail == s.tail && r.head == s.head + 1
  {
    var m := AfterTwo(s, i, begin);
    r := LastTwo(m, i);
    ExecAppend(s, [Event(i, begin), Event(i, Advance)], [Event(i, Advance), Event(i, Advance)]);
    assert [Event(i, begin), Event(i, Advance)] + [Event(i, Advance), Event(i, Advance)]
        == Call(i, begin);
    assert r.threads == s.threads;
  }

  // ---------------------------------------------------------------- exactly when

  /** Threads in `pushers` alone push, threads in `poppers` alone pop. */
  ghost predicate Roles<T(!new)>(events: seq<Event<T>>, pushers: set<nat>, poppers: set<nat>) {
    forall e :: e in events ==>
      (e.step.BeginPush? ==> e.thread in pushers) && (e.step.BeginPop? ==> e.thread in poppers)
  }

  /** A run that is neither in order nor finds every ticket its item. */
  ghost predicate GoesWrong(slots: seq<int>, threads: seq<Thread<int>>, events: seq<Event<int>>) {
    var r := Exec(Init(slots, threads), events);
    r.Some? && !InOrder(r.value) && !OwnItems(r.value)
  }

  lemma IdleThread<T(!new)>(slots: seq<T>, threads: seq<Thread<T>>, i: nat)
    requires AllIdle(threads) && i < |threads|
    ensures Init(slots, threads).threads[i].Idle?
  {
  }

  /** One push takes a ticket and stalls, another passes it. */
  lemma PassedBy(a: State<int>, p1: nat, p2: nat, v: int) returns (events: seq<Event<int>>, c: State<int>)
    requires p1 < |a.threads| && p2 < |a.threads| && p1 != p2 && a.threads[p1].Idle? && a.threads[p2].Idle?
    requires a.free >= 2 && a.Capacity() > 0
    ensures Exec(a, events) == Some(c) && Roles(events, {p1, p2}, {})
    ensures c.threads == a.threads[p1 := PushTicket(v, a.tail)]
    ensures c.items == a.items[(a.tail + 1) % a.Capacity() := v] && c.pushed == a.pushed + [v] + [v]
    ensures c.used == a.used + 1 && c.head == a.head && c.popped == a.popped && c.taken == a.taken
  {
    var stall: seq<Event<int>> := [Event(p1, BeginPush(v)), Event(p1, Advance)];
    var b := AfterTwo(a, p1, BeginPush(v));
    c := WholeCall(b, p2, BeginPush(v));
    ExecAppend(a, stall, Call(p2, BeginPush(v)));
    events := stall + Call(p2, BeginPush(v));
  }

  /** Two overlapping pushes: the second finishes first, and a pop reads the first slot before it is written.
      The documentation calls overlapping pushes safe. */
  lemma OverlappingPushes(slots: seq<int>, threads: seq<Thread<int>>, p1: nat, p2: nat, q: nat)
    returns (events: seq<Event<int>>)
    requires |slots| >= 2 && AllIdle(threads) && p1 < |threads| && p2 < |threads| && q < |threads| && p1 != p2
    requires p1 != q
    ensures Roles(events, {p1, p2}, {q}) && GoesWrong(slots, threads, events)
  {
    var v, a := slots[0] + 1, Init(slots, threads);
    IdleThread(slots, threads, p1);
    var pass, c := PassedBy(a, p1, p2, v);
    var d := WholeCall(c, q, BeginPop);
    ExecAppend(a, pass, Call(q, BeginPop));
    events := pass + Call(q, BeginPop);
    RolesAppend(pass, Call(q, BeginPop), {p1, p2}, {q});
    assert d.popped == [slots[0]] && d.taken == [0] && d.pushed == [v, v];
    assert d.popped[0] != d.pushed[0] && d.popped[0] != d.pushed[d.taken[0]];
  }

  /** `k` pushes one after the other. */
  lemma {:induction false} PushMany<T(!new)>(s: State<T>, i: nat, v: T, k: nat)
    returns (events: seq<Event<T>>, r: State<T>)
    requires i < |s.threads| && s.threads[i].Idle? && k <= s.free && s.Capacity() > 0
    ensures Exec(s, events) == Some(r) && Roles(events, {i}, {})
    ensures r.threads == s.threads && r.Capacity() == s.Capacity() && r.free == s.free - k && r.used == s.used + k
    ensures r.tail == s.tail + k && r.head == s.head && r.popped == s.popped && r.taken == s.taken
    ensures |r.pushed| == |s.pushed| + k && r.pushed[..|s.pushed|] == s.pushed
    ensures forall j :: |s.pushed| <= j < |r.pushed| ==> r.pushed[j] == v
    decreases k
  {
    if k == 0 {
      events, r := [], s;
    } else {
      var before, mid := PushMany(s, i, v, k - 1);
      r := WholeCall(mid, i, BeginPush(v));
      ExecAppend(s, before, Call(i, BeginPush(v)));
      events := before + Call(i, BeginPush(v));
    }
  }

  /** One pop takes ticket 0 and stalls, another passes it. */
  lemma Overtaken(b: State<int>, q1: nat, q2: nat) returns (events: seq<Event<int>>, d: State<int>)
    requires q1 < |b.threads| && q2 < |b.threads| && q1 != q2 && b.threads[q1].Idle? && b.threads[q2].Idle?
    requires b.used >= 2 && b.Capacity() > 0
    ensures Exec(b, events) == Some(d) && Roles(events, {}, {q1, q2})
    ensures d.threads == b.threads[q1 := PopTicket(b.head)] && d.items == b.items
    ensures d.pushed == b.pushed && |d.popped| == |b.popped| + 1 && d.taken == b.taken + [b.head + 1]
    ensures d.free == b.free + 1 && d.tail == b.tail
  {
    var stall: seq<Event<int>> := [Event(q1, BeginPop), Event(q1, Advance)];
    var c := AfterTwo(b, q1, BeginPop);
    d := WholeCall(c, q2, BeginPop);
    ExecAppend(b, stall, Call(q2, BeginPop));
    events := stall + Call(q2, BeginPop);
  }

  /** A push meets the slot of the stalled pop, which reads what was pushed last. */
  lemma Overwritten(d: State<int>, p: nat, q1: nat, ticket: nat, v: int)
    returns (events: seq<Event<int>>, r: State<int>)
    requires p < |d.threads| && q1 < |d.threads| && p != q1 && d.threads[p].Idle? && d.threads[q1] == PopTicket(ticket)
    requires d.free >= 1 && d.Capacity() > 0 && d.tail % d.Capacity() == ticket % d.Capacity()
    ensures Exec(d, events) == Some(r) && Roles(events, {p}, {})
    ensures r.pushed == d.pushed + [v] && r.popped == d.popped + [v] && r.taken == d.taken + [ticket]
  {
    var last: seq<Event<int>> := [Event(q1, Advance), Event(q1, Advance)];
    var e := WholeCall(d, p, BeginPush(v));
    r := LastTwo(e, q1);
    ExecAppend(d, Call(p, BeginPush(v)), last);
    events := Call(p, BeginPush(v)) + last;
  }

  lemma RolesAppend<T(!new)>(a: seq<Event<T>>, b: seq<Event<T>>, p: set<nat>, q: set<nat>)
    requires Roles(a, p, q) && Roles(b, p, q)
    ensures Roles(a + b, p, q)
  {
  }

  /** Two overlapping pops on a full queue: the second finishes first, and a push writes over the slot the
      first has still to read. */
  lemma OverlappingPops(slots: seq<int>, threads: seq<Thread<int>>, p: nat, q1: nat, q2: nat)
    returns (events: seq<Event<int>>)
    requires |slots| >= 2 && AllIdle(threads) && p < |threads| && q1 < |threads| && q2 < |threads| && q1 != p
    requires q1 != q2
    ensures Roles(events, {p}, {q1, q2}) && GoesWrong(slots, threads, events)
  {
    var a, n := Init(slots, threads), |slots|;
    IdleThread(slots, threads, p);
    var fill, b := PushMany(a, p, 0, n);
    var pass, d := Overtaken(b, q1, q2);
    FullCircle(n);
    var meet, r := Overwritten(d, p, q1, 0, 1);
    ExecAppend(a, fill, pass);
    ExecAppend(a, fill + pass, meet);
    events := fill + pass + meet;
    RolesAppend(fill, pass, {p}, {q1, q2});
    RolesAppend(fill + pass, meet, {p}, {q1, q2});
    assert r.popped[1] == 1 && r.taken[1] == 0 && r.pushed[0] == 0 && r.pushed[1] == 0;
  }

  lemma FullCircle(n: nat)
    requires n > 0
    ensures n % n == 0 && 0 % n == 0
  {
  }

  /** With a single slot no calls overlap, whoever makes them. */
  lemma {:induction false} OneSlotIsExclusive<T(!new)>(s: State<T>, events: seq<Event<T>>)
    requires Tally(s) && s.Capacity() == 1 && Exec(s, events).Some?
    ensures ExclusiveRun(s, events)
    decreases |events|
  {
    if events != [] {
      TallyKept(s, events[0]);
      OneSlotIsExclusive(Next(s, events[0]), events[1..]);
    }
  }

  predicate Ids<T>(s: set<nat>, threads: seq<Thread<T>>) {
    forall i :: i in s ==> i < |threads|
  }

  lemma Another(s: set<nat>, x: nat) returns (y: nat)
    requires |s| >= 2
    ensures y in s && y != x
  {
    assert |s - {x}| >= 1;
    y :| y in s - {x};
  }

  lemma OnlyOne(s: set<nat>, x: nat)
    requires |s| == 1 && x in s
    ensures s == {x}
  {
    assert |s - {x}| == 0;
  }

  /** The queue is first in, first out. */
  ghost predicate AlwaysInOrder(slots: seq<int>, threads: seq<Thread<int>>, pushers: set<nat>, poppers: set<nat>) {
    forall events :: Roles(events, pushers, poppers) && Exec(Init(slots, threads), events).Some?
      ==> InOrder(Exec(Init(slots, threads), events).value)
  }

  /** Every pop returns the item of its ticket. */
  ghost predicate AlwaysOwnItems(slots: seq<int>, threads: seq<Thread<int>>, pushers: set<nat>, poppers: set<nat>) {
    forall events :: Roles(events, pushers, poppers) && Exec(Init(slots, threads), events).Some?
      ==> OwnItems(Exec(Init(slots, threads), events).value)
  }

  /** One slot, or one pusher and one popper. */
  predicate Single(capacity: nat, pushers: set<nat>, poppers: set<nat>) {
    capacity == 1 || (|pushers| == 1 && |poppers| == 1)
  }

  lemma SingleIsRight(slots: seq<int>, threads: seq<Thread<int>>, pushers: set<nat>, poppers: set<nat>,
        events: seq<Event<int>>)
    requires |slots| > 0 && AllIdle(threads) && Single(|slots|, pushers, poppers)
    requires Roles(events, pushers, poppers) && Exec(Init(slots, threads), events).Some?
    ensures InOrder(Exec(Init(slots, threads), events).value) && OwnItems(Exec(Init(slots, threads), events).value)
  {
    var s := Init(slots, threads);
    TallyInit(slots, threads);
    if |slots| == 1 {
      OneSlotIsExclusive(s, events);
    } else {
      var a, b :| a in pushers && b in poppers;
      OnlyOne(pushers, a);
      OnlyOne(poppers, b);
      forall e | e in events ensures Paired(e, a, b) { }
      OnePairIsExclusive(s, events, a, b);
    }
    FirstInFirstOut(slots, threads, events);
  }

  lemma MultipleGoesWrong(slots: seq<int>, threads: seq<Thread<int>>, pushers: set<nat>, poppers: set<nat>)
    returns (events: seq<Event<int>>)
    requires |slots| >= 2 && AllIdle(threads) && pushers != {} && poppers != {} && !Single(|slots|, pushers, poppers)
    requires Ids(pushers, threads) && Ids(poppers, threads)
    ensures Roles(events, pushers, poppers) && GoesWrong(slots, threads, events)
  {
    var p, q :| p in pushers && q in poppers;
    if |pushers| >= 2 {
      var p1 := Another(pushers, q);
      var p2 := Another(pushers, p1);
      events := OverlappingPushes(slots, threads, p1, p2, q);
      WiderRoles(events, {p1, p2}, {q}, pushers, poppers);
    } else {
      NotEmpty(pushers, p);
      NotEmpty(poppers, q);
      var q1 := Another(poppers, p);
      var q2 := Another(poppers, q1);
      events := OverlappingPops(slots, threads, p, q1, q2);
      WiderRoles(events, {p}, {q1, q2}, pushers, poppers);
    }
  }

  lemma NotEmpty(s: set<nat>, x: nat)
    requires x in s
    ensures |s| >= 1
  {
  }

  lemma WiderRoles<T(!new)>(events: seq<Event<T>>, p: set<nat>, q: set<nat>, p': set<nat>, q': set<nat>)
    requires Roles(events, p, q) && p <= p' && q <= q'
    ensures Roles(events, p', q')
  {
  }

  /** For any threads that push and any that pop: every run is first in, first out, and every pop gets the item
      of its ticket, exactly if there is one slot, or one pusher and one popper. */
  lemma FifoIff(slots: seq<int>, threads: seq<Thread<int>>, pushers: set<nat>, poppers: set<nat>)
    requires |slots| > 0 && AllIdle(threads) && pushers != {} && poppers != {}
    requires Ids(pushers, threads) && Ids(poppers, threads)
    ensures AlwaysInOrder(slots, threads, pushers, poppers) <==> Single(|slots|, pushers, poppers)
    ensures AlwaysOwnItems(slots, threads, pushers, poppers) <==> Single(|slots|, pushers, poppers)
  {
    if Single(|slots|, pushers, poppers) {
      forall events | Roles(events, pushers, poppers) && Exec(Init(slots, threads), events).Some?
        ensures InOrder(Exec(Init(slots, threads), events).value) && OwnItems(Exec(Init(slots, threads), events).value)
      {
        SingleIsRight(slots, threads, pushers, poppers, events);
      }
    } else {
      var events := MultipleGoesWrong(slots, threads, pushers, poppers);
    }
  }
}
