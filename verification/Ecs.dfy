/** The entity table of src/ecs.c: generational handles, deferred add and remove, and queries.

    `View` is the contents of the tables; what calls do to it is stated by functions on views, and the
    methods of `EntityTable` do the same in place. */
module Ecs {
  import opened Bits

  const MAX_ENTITIES := 512

  datatype EntityState = Unused | PendingAdd | Active | PendingRemove
  {
    /** The order of the enumeration, which the code compares by. */
    function Rank(): nat {
      match this
      case Unused => 0
      case PendingAdd => 1
      case Active => 2
      case PendingRemove => 3
    }
  }

  datatype EntityRef = EntityRef(entity: int, sequence: int)

  datatype View = View(states: seq<EntityState>, sequences: seq<int>, masks: seq<nat>, indices: seq<int>, next: int)

  predicate Sized(v: View) {
    && |v.states| == MAX_ENTITIES && |v.sequences| == MAX_ENTITIES
    && |v.masks| == MAX_ENTITIES && |v.indices| == MAX_ENTITIES
  }

  /** Sequence numbers are handed out once: no two slots share one, and none is ahead of the counter. */
  ghost predicate Good(v: View) {
    && Sized(v) && 1 <= v.next
    && (forall i :: 0 <= i < MAX_ENTITIES ==> 0 <= v.sequences[i] < v.next)
    && (forall i :: 0 <= i < MAX_ENTITIES && v.states[i] != Unused ==> 1 <= v.sequences[i])
    && (forall i, j :: 0 <= i < j < MAX_ENTITIES && v.sequences[i] != 0 ==> v.sequences[i] != v.sequences[j])
  }

  // ---------------------------------------------------------------- what the calls do

  predicate RefValid(v: View, ref: EntityRef, allowPendingAdd: bool)
    requires Sized(v) && ref.entity < MAX_ENTITIES
  {
    && ref.entity >= 0 && v.sequences[ref.entity] == ref.sequence
    && v.states[ref.entity].Rank() >= (if allowPendingAdd then PendingAdd else Active).Rank()
  }

  /** The first unused slot, or MAX_ENTITIES. */
  function FirstUnused(states: seq<EntityState>, from: nat): (r: nat)
    requires from <= |states|
    ensures from <= r <= |states| && (r < |states| ==> states[r] == Unused)
    ensures forall i :: from <= i < r ==> states[i] != Unused
    decreases |states| - from
  {
    if from == |states| || states[from] == Unused then from else FirstUnused(states, from + 1)
  }

  function Added(v: View, mask: nat, index: int): View
    requires Sized(v)
  {
    var i := FirstUnused(v.states, 0);
    if i == MAX_ENTITIES then v
    else View(v.states[i := PendingAdd], v.sequences[i := v.next], v.masks[i := mask], v.indices[i := index],
              v.next + 1)
  }

  function AddedRef(v: View): EntityRef
    requires Sized(v)
  {
    var i := FirstUnused(v.states, 0);
    if i == MAX_ENTITIES then EntityRef(-1, -1) else EntityRef(i, v.next)
  }

  function Removed(v: View, ref: EntityRef, allowPendingAdd: bool): View
    requires Sized(v) && ref.entity < MAX_ENTITIES
  {
    if RefValid(v, ref, allowPendingAdd) then v.(states := v.states[ref.entity := PendingRemove]) else v
  }

  function UpdatedState(s: EntityState): EntityState {
    match s
    case PendingAdd => Active
    case PendingRemove => Unused
    case _ => s
  }

  function Updated(v: View): View {
    v.(states := seq(|v.states|, i requires 0 <= i < |v.states| => UpdatedState(v.states[i])))
  }

  // ---------------------------------------------------------------- runs

  datatype Op =
    | Add(mask: nat, index: int)
    | Remove(ref: EntityRef, allowPendingAdd: bool)
    | Update

  /** Removal reads the index of the slot whether or not the handle is valid, so it has to name one. */
  predicate Legal(op: Op) {
    op.Remove? ==> 0 <= op.ref.entity < MAX_ENTITIES
  }

  function Apply(v: View, op: Op): (r: View)
    requires Sized(v) && Legal(op)
    ensures Sized(r)
  {
    match op
    case Add(mask, index) => Added(v, mask, index)
    case Remove(ref, allow) => Removed(v, ref, allow)
    case Update => Updated(v)
  }

  function Run(v: View, ops: seq<Op>): (r: View)
    requires Sized(v) && forall op :: op in ops ==> Legal(op)
    ensures Sized(r)
    decreases |ops|
  {
    if ops == [] then v else Apply(Run(v, ops[..|ops| - 1]), ops[|ops| - 1])
  }

  lemma ApplyKeeps(v: View, op: Op)
    requires Good(v) && Legal(op)
    ensures Good(Apply(v, op)) && v.next <= Apply(v, op).next
  {
  }

  lemma {:induction false} RunKeeps(v: View, ops: seq<Op>)
    requires Good(v) && forall op :: op in ops ==> Legal(op)
    ensures Good(Run(v, ops)) && v.next <= Run(v, ops).next
    decreases |ops|
  {
    if ops != [] {
      RunKeeps(v, ops[..|ops| - 1]);
      ApplyKeeps(Run(v, ops[..|ops| - 1]), ops[|ops| - 1]);
    }
  }

  /** A handle is dead: it was issued, and its slot is unused or has moved on. */
  predicate Dead(v: View, ref: EntityRef)
    requires Sized(v) && ref.entity < MAX_ENTITIES
  {
    !RefValid(v, ref, true) && ref.sequence < v.next
  }

  /** Once dead a handle stays dead, whatever is added, removed or updated afterwards. */
  lemma {:induction false} NeverRevalidated(v: View, ref: EntityRef, ops: seq<Op>)
    requires Good(v) && ref.entity < MAX_ENTITIES && Dead(v, ref) && forall op :: op in ops ==> Legal(op)
    ensures Dead(Run(v, ops), ref)
    decreases |ops|
  {
    if ops != [] {
      var before, op := ops[..|ops| - 1], ops[|ops| - 1];
      NeverRevalidated(v, ref, before);
      RunKeeps(v, before);
      StaysDead(Run(v, before), ref, op);
    }
  }

  lemma StaysDead(v: View, ref: EntityRef, op: Op)
    requires Good(v) && ref.entity < MAX_ENTITIES && Dead(v, ref) && Legal(op)
    ensures Dead(Apply(v, op), ref)
  {
  }

  /** A handle issued later is a different one, and two valid handles with one sequence number are one. */
  lemma HandlesAreUnique(v: View, a: EntityRef, b: EntityRef, ops: seq<Op>)
    requires Good(v) && a.entity < MAX_ENTITIES && RefValid(v, a, true) && forall op :: op in ops ==> Legal(op)
    ensures AddedRef(Run(v, ops)).sequence != a.sequence
    ensures b.entity < MAX_ENTITIES && RefValid(v, b, true) && b.sequence == a.sequence ==> a == b
  {
    RunKeeps(v, ops);
  }

  /** The deferred lifecycle of one entity. */
  lemma Lifecycle(v: View, mask: nat, index: int)
    requires Good(v) && AddedRef(v).entity >= 0
    ensures var ref, added := AddedRef(v), Added(v, mask, index);
      && ref.entity < MAX_ENTITIES && !RefValid(v, ref, true)
      && RefValid(added, ref, true) && !RefValid(added, ref, false)
      && RefValid(Updated(added), ref, false) && !RefValid(Updated(Removed(added, ref, true)), ref, true)
      && RefValid(Removed(Updated(added), ref, false), ref, false)
      && Dead(Updated(Removed(Updated(added), ref, false)), ref)
  {
  }

  /** All of a slot but its state. */
  predicate SameSlot(v: View, v': View, i: nat)
    requires Sized(v) && Sized(v') && i < MAX_ENTITIES
  {
    v'.sequences[i] == v.sequences[i] && v'.masks[i] == v.masks[i] && v'.indices[i] == v.indices[i]
  }

  /** What a call does to a slot it is not about: nothing, but for an update, which completes what is pending. */
  lemma OthersUntouched(v: View, op: Op, i: nat)
    requires Good(v) && Legal(op) && i < MAX_ENTITIES
    requires op.Add? ==> AddedRef(v).entity != i
    requires op.Remove? ==> op.ref.entity != i
    ensures SameSlot(v, Apply(v, op), i)
    ensures !op.Update? ==> Apply(v, op).states[i] == v.states[i]
    ensures op.Update? && v.states[i].PendingAdd? ==> Apply(v, op).states[i] == Active
    ensures op.Update? && v.states[i].PendingRemove? ==> Apply(v, op).states[i] == Unused
    ensures op.Update? && (v.states[i].Unused? || v.states[i].Active?) ==> Apply(v, op).states[i] == v.states[i]
  {
  }

  /** The slot still has the number of the handle: it has not been given to another entity. */
  predicate Holds(v: View, ref: EntityRef, mask: nat, index: int)
    requires Sized(v)
  {
    && 0 <= ref.entity < MAX_ENTITIES && v.sequences[ref.entity] == ref.sequence
    && v.masks[ref.entity] == mask && v.indices[ref.entity] == index
  }

  lemma StillHeld(v: View, op: Op, ref: EntityRef, mask: nat, index: int)
    requires Good(v) && Legal(op) && Holds(v, ref, mask, index) && ref.sequence < v.next
    ensures Holds(Apply(v, op), ref, mask, index) || Dead(Apply(v, op), ref)
  {
    if op.Add? && AddedRef(v).entity == ref.entity {
      assert !RefValid(Apply(v, op), ref, true);
    }
  }

  /** Whatever happens afterwards, as long as the handle is valid its slot has the mask and the index that were
      given to it, so that removal returns this index. */
  lemma {:induction false} KeepsWhatWasGiven(v: View, mask: nat, index: int, ops: seq<Op>)
    requires Good(v) && AddedRef(v).entity >= 0 && forall op :: op in ops ==> Legal(op)
    ensures AddedRef(v).entity < MAX_ENTITIES
    ensures var now := Run(Added(v, mask, index), ops);
      Holds(now, AddedRef(v), mask, index) || Dead(now, AddedRef(v))
    decreases |ops|
  {
    var ref, added := AddedRef(v), Added(v, mask, index);
    assert added == Apply(v, Add(mask, index));
    ApplyKeeps(v, Add(mask, index));
    if ops != [] {
      var before, op := ops[..|ops| - 1], ops[|ops| - 1];
      KeepsWhatWasGiven(v, mask, index, before);
      RunKeeps(added, before);
      if Dead(Run(added, before), ref) {
        StaysDead(Run(added, before), ref, op);
      } else {
        StillHeld(Run(added, before), op, ref, mask, index);
      }
    }
  }

  // ---------------------------------------------------------------- queries

  predicate Matches(v: View, mask: nat, i: nat)
    requires Sized(v) && i < MAX_ENTITIES
  {
    And(v.masks[i], mask) == mask && v.states[i].Rank() >= Active.Rank()
  }

  /** The matching slots from `from` on, in ascending order. */
  function Matching(v: View, mask: nat, from: nat): seq<nat>
    requires Sized(v) && from <= MAX_ENTITIES
    decreases MAX_ENTITIES - from
  {
    if from == MAX_ENTITIES then []
    else if Matches(v, mask, from) then [from] + Matching(v, mask, from + 1)
    else Matching(v, mask, from + 1)
  }

  lemma {:induction false} MatchingIsExact(v: View, mask: nat, from: nat)
    requires Sized(v) && from <= MAX_ENTITIES
    ensures forall i :: i in Matching(v, mask, from) <==> from <= i < MAX_ENTITIES && Matches(v, mask, i)
    ensures forall j, k :: 0 <= j < k < |Matching(v, mask, from)| ==>
      Matching(v, mask, from)[j] < Matching(v, mask, from)[k]
    decreases MAX_ENTITIES - from
  {
    if from < MAX_ENTITIES {
      MatchingIsExact(v, mask, from + 1);
      var all, rest := Matching(v, mask, from), Matching(v, mask, from + 1);
      if Matches(v, mask, from) {
        forall j, k | 0 <= j < k < |all| ensures all[j] < all[k] {
          assert rest[k - 1] in rest;
        }
      }
    }
  }

  /** A query asks for components, and matches what has all of them. */
  lemma {:induction false} ContainsAll(a: nat, b: nat)
    ensures And(a, b) == b <==> forall i :: Bit(b, i) ==> Bit(a, i)
  {
    forall i ensures Bit(And(a, b), i) <==> Bit(a, i) && Bit(b, i) { BitAnd(a, b, i); }
    if And(a, b) != b {
      var i := DifferingBit(And(a, b), b);
    }
  }

  /** From the next update on, an added entity is found by exactly the queries for components it was given. */
  lemma AddedIsFound(v: View, mask: nat, index: int, query: nat)
    requires Good(v) && AddedRef(v).entity >= 0
    ensures AddedRef(v).entity < MAX_ENTITIES && !Matches(Added(v, mask, index), query, AddedRef(v).entity)
    ensures Matches(Updated(Added(v, mask, index)), query, AddedRef(v).entity)
      <==> forall i :: Bit(query, i) ==> Bit(mask, i)
  {
    ContainsAll(mask, query);
  }

  /** What a loop body may do to the table: add, and remove what is not pending addition. */
  predicate Harmless(v: View, op: Op)
    requires Sized(v)
  {
    match op
    case Add(_, _) => true
    case Remove(ref, allow) => 0 <= ref.entity < MAX_ENTITIES && !(RefValid(v, ref, allow) && !RefValid(v, ref, false))
    case Update => false
  }

  ghost predicate SameMatches(v: View, v': View, mask: nat)
    requires Sized(v) && Sized(v')
  {
    forall i :: 0 <= i < MAX_ENTITIES ==> (Matches(v', mask, i) <==> Matches(v, mask, i))
  }

  lemma HarmlessIsStable(v: View, op: Op, mask: nat)
    requires Good(v) && Legal(op) && Harmless(v, op)
    ensures SameMatches(v, Apply(v, op), mask)
  {
    forall i | 0 <= i < MAX_ENTITIES ensures SlotStable(v, Apply(v, op), i) { SlotIsStable(v, op, i); }
    StableMatches(v, Apply(v, op), mask);
  }

  /** Whether a slot counts as active, and its mask if it does, are the same. */
  predicate SlotStable(v: View, v': View, i: nat)
    requires Sized(v) && Sized(v') && i < MAX_ENTITIES
  {
    && (v'.states[i].Rank() >= Active.Rank() <==> v.states[i].Rank() >= Active.Rank())
    && (v.states[i].Rank() >= Active.Rank() ==> v'.masks[i] == v.masks[i])
  }

  lemma SlotIsStable(v: View, op: Op, i: nat)
    requires Good(v) && Legal(op) && Harmless(v, op) && i < MAX_ENTITIES
    ensures SlotStable(v, Apply(v, op), i)
  {
  }

  lemma StableMatches(v: View, v': View, mask: nat)
    requires Sized(v) && Sized(v') && forall i :: 0 <= i < MAX_ENTITIES ==> SlotStable(v, v', i)
    ensures SameMatches(v, v', mask)
  {
    forall i | 0 <= i < MAX_ENTITIES ensures Matches(v', mask, i) <==> Matches(v, mask, i) {
      assert SlotStable(v, v', i);
    }
  }

  /** Exactly the harmless steps change no match: a slot that was pending addition passes for an active
      one once it is pending removal. */
  lemma HarmlessIffStable(v: View, op: Op)
    requires Good(v) && Legal(op) && !op.Update?
    ensures Harmless(v, op) <==> forall mask :: SameMatches(v, Apply(v, op), mask)
  {
    if Harmless(v, op) {
      forall mask ensures SameMatches(v, Apply(v, op), mask) { HarmlessIsStable(v, op, mask); }
    } else {
      HarmfulIsSeen(v, op);
    }
  }

  lemma HarmfulIsSeen(v: View, op: Op)
    requires Good(v) && Legal(op) && !op.Update? && !Harmless(v, op)
    ensures !SameMatches(v, Apply(v, op), 0)
  {
    var i := op.ref.entity;
    assert And(v.masks[i], 0) == 0;
    assert Matches(Apply(v, op), 0, i) && !Matches(v, 0, i);
  }

  lemma {:induction false} MatchingSkips(v: View, mask: nat, from: nat, to: nat)
    requires Sized(v) && from <= to <= MAX_ENTITIES
    requires forall i :: from <= i < to ==> !Matches(v, mask, i)
    ensures Matching(v, mask, from) == Matching(v, mask, to)
    decreases MAX_ENTITIES - from
  {
    if from < to { MatchingSkips(v, mask, from + 1, to); }
  }

  /** A loop body that only adds, and removes only what is active. */
  predicate Gentle(op: Op) {
    Legal(op) && (op.Add? || (op.Remove? && !op.allowPendingAdd))
  }

  predicate GentleBody(ops: seq<Op>) {
    forall op :: op in ops ==> Legal(op) && Gentle(op)
  }

  lemma {:induction false} GentleRunIsStable(v: View, ops: seq<Op>, mask: nat)
    requires Good(v) && GentleBody(ops)
    ensures SameMatches(v, Run(v, ops), mask)
    decreases |ops|
  {
    if ops != [] {
      var before, op := ops[..|ops| - 1], ops[|ops| - 1];
      assert op in ops;
      RunKeeps(v, before);
      GentleRunIsStable(v, before, mask);
      HarmlessIsStable(Run(v, before), op, mask);
    }
  }

  // ---------------------------------------------------------------- the table

  datatype Query = Query(mask: nat, entity: int)

  /** The cursor of a query that has passed everything before `from`. */
  ghost predicate PointsTo(v: View, q: Query, from: nat)
    requires Sized(v) && from <= MAX_ENTITIES
  {
    if q.entity == -1 then forall i :: from <= i < MAX_ENTITIES ==> !Matches(v, q.mask, i)
    else from <= q.entity < MAX_ENTITIES && Matches(v, q.mask, q.entity)
         && forall i :: from <= i < q.entity ==> !Matches(v, q.mask, i)
  }

  class EntityTable {
    const sequences: array<int>
    const states: array<EntityState>
    const masks: array<nat>
    const indices: array<int>
    var globalSequence: int

    ghost predicate Valid()
      reads this, sequences, states, masks, indices
    {
      && sequences.Length == states.Length == masks.Length == indices.Length == MAX_ENTITIES
      && sequences != indices && Good(Contents())
    }

    ghost function Contents(): (v: View)
      reads this, sequences, states, masks, indices
    {
      View(states[..], sequences[..], masks[..], indices[..], globalSequence)
    }

    constructor ()
      ensures Valid() && fresh(sequences) && fresh(states) && fresh(masks) && fresh(indices)
      ensures forall i :: 0 <= i < MAX_ENTITIES ==> Contents().states[i] == Unused
    {
      sequences := new int[MAX_ENTITIES](_ => 0);
      states := new EntityState[MAX_ENTITIES](_ => Unused);
      masks := new nat[MAX_ENTITIES](_ => 0);
      indices := new int[MAX_ENTITIES](_ => 0);
      globalSequence := 1;
    }

    /** Takes the first unused slot; no slot, no change. */
    method EntityAdd(mask: nat, index: int) returns (ref: EntityRef)
      requires Valid()
      modifies this, sequences, states, masks, indices
      ensures Valid() && Contents() == Added(old(Contents()), mask, index) && ref == AddedRef(old(Contents()))
    {
      ghost var v := Contents();
      ApplyKeeps(v, Add(mask, index));
      for i := 0 to MAX_ENTITIES
        invariant Contents() == v && Valid()
        invariant forall k :: 0 <= k < i ==> states[k] != Unused
      {
        if states[i] == Unused {
          assert FirstUnused(v.states, 0) == i;
          states[i] := PendingAdd;
          sequences[i] := globalSequence;
          globalSequence := globalSequence + 1;
          masks[i] := mask;
          indices[i] := index;
          return EntityRef(i, sequences[i]);
        }
      }
      return EntityRef(-1, -1);
    }

    predicate IsRefValid(ref: EntityRef, allowPendingAdd: bool)
      requires Valid() && ref.entity < MAX_ENTITIES
      reads this, sequences, states, masks, indices
      ensures IsRefValid(ref, allowPendingAdd) == RefValid(Contents(), ref, allowPendingAdd)
    {
      && ref.entity >= 0 && sequences[ref.entity] == ref.sequence
      && states[ref.entity].Rank() >= (if allowPendingAdd then PendingAdd else Active).Rank()
    }

    method EntityRemove(ref: EntityRef, allowPendingAdd: bool) returns (index: int)
      requires Valid() && 0 <= ref.entity < MAX_ENTITIES
      modifies states
      ensures Valid() && Contents() == Removed(old(Contents()), ref, allowPendingAdd)
      ensures index == Contents().indices[ref.entity]
    {
      ApplyKeeps(Contents(), Remove(ref, allowPendingAdd));
      if IsRefValid(ref, allowPendingAdd) {
        states[ref.entity] := PendingRemove;
      }
      index := indices[ref.entity];
    }

    method UpdateAll()
      requires Valid()
      modifies states
      ensures Valid() && Contents() == Updated(old(Contents()))
    {
      ghost var v := Contents();
      ApplyKeeps(v, Update);
      for i := 0 to MAX_ENTITIES
        invariant states.Length == MAX_ENTITIES && sequences[..] == v.sequences && masks[..] == v.masks
        invariant indices[..] == v.indices && globalSequence == v.next
        invariant forall k :: 0 <= k < i ==> states[k] == UpdatedState(v.states[k])
        invariant forall k :: i <= k < MAX_ENTITIES ==> states[k] == v.states[k]
      {
        if states[i] == PendingAdd {
          states[i] := Active;
        } else if states[i] == PendingRemove {
          states[i] := Unused;
        }
      }
      assert Contents() == Updated(v);
    }

    /** The next matching slot behind the cursor. */
    method QueryNext(q: Query) returns (r: Query)
      requires Valid() && -1 <= q.entity < MAX_ENTITIES
      ensures r.mask == q.mask && -1 <= r.entity < MAX_ENTITIES && PointsTo(Contents(), r, q.entity + 1)
    {
      for i := q.entity + 1 to MAX_ENTITIES
        invariant forall k :: q.entity + 1 <= k < i ==> !Matches(Contents(), q.mask, k)
      {
        if And(masks[i], q.mask) == q.mask && states[i].Rank() >= Active.Rank() {
          return Query(q.mask, i);
        }
      }
      return Query(q.mask, -1);
    }

    method QueryCreate(mask: nat) returns (q: Query)
      requires Valid()
      ensures q.mask == mask && -1 <= q.entity < MAX_ENTITIES && PointsTo(Contents(), q, 0)
    {
      q := QueryNext(Query(mask, -1));
    }

    /** What a loop body does with the table. */
    method Perform(ops: seq<Op>)
      requires Valid() && forall op :: op in ops ==> Legal(op)
      modifies this, sequences, states, masks, indices
      ensures Valid() && Contents() == Run(old(Contents()), ops)
    {
      ghost var v := Contents();
      for k := 0 to |ops|
        invariant Valid() && Contents() == Run(v, ops[..k])
      {
        assert ops[..k + 1][..k] == ops[..k] && ops[k] in ops;
        match ops[k]
        case Add(mask, index) => var _ := EntityAdd(mask, index);
        case Remove(ref, allow) => var _ := EntityRemove(ref, allow);
        case Update => UpdateAll();
      }
      assert ops[..|ops|] == ops;
    }

    method PerformGently(ops: seq<Op>, ghost start: View, ghost mask: nat)
      requires Valid() && GentleBody(ops) && Sized(start) && SameMatches(start, Contents(), mask)
      modifies this, sequences, states, masks, indices
      ensures Valid() && SameMatches(start, Contents(), mask)
    {
      GentleRunIsStable(Contents(), ops, mask);
      Perform(ops);
    }

    /** A create/next loop whose body adds entities and removes active ones visits exactly the entities
        that matched at the start, each once, in ascending order. */
    method VisitAll(mask: nat, bodies: seq<seq<Op>>) returns (visited: seq<nat>)
      requires Valid() && forall k :: 0 <= k < |bodies| ==> GentleBody(bodies[k])
      modifies this, sequences, states, masks, indices
      ensures Valid() && visited == Matching(old(Contents()), mask, 0)
    {
      ghost var v := Contents();
      visited := [];
      var q := QueryCreate(mask);
      QueryAdvances(v, Contents(), q, 0);
      while q.entity >= 0
        invariant Valid() && q.mask == mask && -1 <= q.entity < MAX_ENTITIES && SameMatches(v, Contents(), mask)
        invariant visited + Rest(v, q) == Matching(v, mask, 0)
        invariant q.entity >= 0 ==> Rest(v, q) == [q.entity] + Matching(v, mask, q.entity + 1)
        decreases if q.entity < 0 then 0 else MAX_ENTITIES - q.entity
      {
        ghost var from := q.entity + 1;
        assert visited + Rest(v, q) == (visited + [q.entity]) + Matching(v, mask, from);
        visited := visited + [q.entity];
        if |visited| <= |bodies| {
          PerformGently(bodies[|visited| - 1], v, mask);
        }
        q := QueryNext(q);
        QueryAdvances(v, Contents(), q, from);
      }
    }
  }

  /** What a query has still to visit. */
  ghost function Rest(v: View, q: Query): seq<nat>
    requires Sized(v) && -1 <= q.entity < MAX_ENTITIES
  {
    if q.entity == -1 then [] else Matching(v, q.mask, q.entity)
  }

  lemma QueryAdvances(v: View, v': View, q: Query, from: nat)
    requires Sized(v) && Sized(v') && from <= MAX_ENTITIES && SameMatches(v, v', q.mask) && PointsTo(v', q, from)
    ensures -1 <= q.entity < MAX_ENTITIES && Rest(v, q) == Matching(v, q.mask, from)
    ensures q.entity >= 0 ==> Rest(v, q) == [q.entity] + Matching(v, q.mask, q.entity + 1)
  {
    if q.entity == -1 {
      MatchingSkips(v, q.mask, from, MAX_ENTITIES);
    } else {
      MatchingSkips(v, q.mask, from, q.entity);
    }
  }
}
