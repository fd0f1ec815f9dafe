/** Snapshot replication of src/net.c between two peers, over a channel that loses, repeats and reorders.

    A peer sends every snapshot as a difference to the last one it knows the other side has accepted; the
    other side applies the difference to whatever it has.  Everything a peer ever sent may arrive at any
    time and any number of times. */
module Net {
  import opened Wrappers

  const MAX_SNAPSHOTS := 256

  newtype Byte = x: int | 0 <= x < 256

  type Bytes = seq<Byte>

  /** A replicated entity: its type, its sequence number in the sender's table, its component bytes. */
  datatype Entity = Entity(kind: nat, id: int, data: Bytes)

  /** What a packet says of an entity; no data when it is as in the baseline. */
  datatype Delta = Delta(kind: nat, id: int, data: Option<Bytes>)

  datatype Packet = Packet(sequence: nat, ack: int, deltas: seq<Delta>)

  datatype Snapshot = Snapshot(sequence: nat, entities: seq<Entity>)

  /** The copy of a remote entity, the update in which it was last seen, and whether it is pending removal:
      it can still be found and written then, until the entity table is updated. */
  datatype Replica = Replica(data: Bytes, seen: nat, doomed: bool)

  /** What the memory of each new entity holds until data arrives. */
  type Stale = int -> Bytes

  /** `sequence` counts the updates begun; the code increments it when an update ends. */
  datatype Peer = Peer(sequence: nat, incoming: int, ack: int, ring: seq<Snapshot>, replicas: map<int, Replica>)

  // ---------------------------------------------------------------- sending

  /** The current snapshot against a baseline, both read front to back: an entity is compared with the next
      one of the baseline if that is the same entity, and sent in full otherwise. */
  function Deltas(cur: seq<Entity>, base: seq<Entity>): (r: seq<Delta>)
    ensures |r| == |cur|
  {
    if cur == [] then []
    else
      var e := cur[0];
      if base != [] && base[0].id == e.id then
        [Delta(e.kind, e.id, if e.data != base[0].data then Some(e.data) else None)] + Deltas(cur[1..], base[1..])
      else
        [Delta(e.kind, e.id, Some(e.data))] + Deltas(cur[1..], base)
  }

  predicate RingOk(p: Peer) {
    |p.ring| == MAX_SNAPSHOTS && -1 <= p.ack
  }

  function Baseline(p: Peer): seq<Entity>
    requires RingOk(p)
  {
    if p.ack >= 0 && p.ring[p.ack % MAX_SNAPSHOTS].sequence == p.ack then p.ring[p.ack % MAX_SNAPSHOTS].entities else []
  }

  function Snapshotted(p: Peer, world: seq<Entity>): Peer
    requires RingOk(p)
  {
    p.(ring := p.ring[p.sequence % MAX_SNAPSHOTS := Snapshot(p.sequence, world)])
  }

  function Outgoing(p: Peer, world: seq<Entity>): Packet
    requires RingOk(p)
  {
    Packet(p.sequence, p.incoming, Deltas(world, Baseline(Snapshotted(p, world))))
  }

  // ---------------------------------------------------------------- receiving

  function Prior(r: map<int, Replica>, k: int, stale: Stale): Bytes {
    if k in r then r[k].data else stale(k)
  }

  predicate Doomed(r: map<int, Replica>, k: int) {
    k in r && r[k].doomed
  }

  /** A copy is found, pending removal or not, or made. */
  function ReadOne(r: map<int, Replica>, d: Delta, now: nat, stale: Stale): map<int, Replica> {
    r[d.id := Replica(if d.data.Some? then d.data.value else Prior(r, d.id, stale), now, Doomed(r, d.id))]
  }

  function ReadAll(r: map<int, Replica>, ds: seq<Delta>, now: nat, stale: Stale): map<int, Replica>
    decreases |ds|
  {
    if ds == [] then r else ReadAll(ReadOne(r, ds[0], now, stale), ds[1..], now, stale)
  }

  /** What was not seen in this update is marked for removal. */
  function Swept(r: map<int, Replica>, now: nat): map<int, Replica> {
    map k | k in r :: if r[k].seen == now then r[k] else r[k].(doomed := true)
  }

  function Read(r: map<int, Replica>, ds: seq<Delta>, now: nat, stale: Stale): map<int, Replica> {
    Swept(ReadAll(r, ds, now, stale), now)
  }

  /** ecs_update completes the removals. */
  function Settled(r: map<int, Replica>): map<int, Replica> {
    map k | k in r && !r[k].doomed :: r[k]
  }

  /** Packets that are not newer than the last accepted one are dropped. */
  function Received(p: Peer, packet: Packet, stale: Stale): Peer
    requires p.sequence > 0
  {
    if packet.sequence <= p.incoming then p
    else p.(incoming := packet.sequence, ack := packet.ack,
            replicas := Read(p.replicas, packet.deltas, p.sequence - 1, stale))
  }

  // ---------------------------------------------------------------- what a packet does to the copies

  predicate Distinct(s: seq<Entity>) {
    forall i, j :: 0 <= i < j < |s| ==> s[i].id != s[j].id
  }

  ghost predicate Has(s: seq<Entity>, k: int) {
    exists i :: 0 <= i < |s| && s[i].id == k
  }

  /** The copies are exactly the entities of the snapshot, but for those pending removal. */
  ghost predicate Agrees(r: map<int, Replica>, s: seq<Entity>) {
    && (forall k :: k in r && !r[k].doomed ==> Has(s, k))
    && (forall i :: 0 <= i < |s| ==> s[i].id in r && !r[s[i].id].doomed && r[s[i].id].data == s[i].data)
  }

  /** Agreement is about what is left once removals are complete. */
  lemma SettledAgrees(r: map<int, Replica>, s: seq<Entity>)
    ensures Agrees(Settled(r), s) <==> Agrees(r, s)
  {
  }

  /** Each entity of a snapshot has its entry; one without data stands, with the same data, in the baseline. */
  lemma {:induction false} DeltaAt(cur: seq<Entity>, base: seq<Entity>, i: nat)
    requires i < |cur|
    ensures var d := Deltas(cur, base)[i];
      && d.kind == cur[i].kind && d.id == cur[i].id && (d.data.Some? ==> d.data.value == cur[i].data)
      && (d.data.None? ==> exists j :: 0 <= j < |base| && base[j].id == cur[i].id && base[j].data == cur[i].data)
    decreases |cur|
  {
    if base != [] && base[0].id == cur[0].id {
      if i > 0 {
        DeltaAt(cur[1..], base[1..], i - 1);
        if Deltas(cur, base)[i].data.None? {
          var j :| 0 <= j < |base[1..]| && base[1..][j].id == cur[i].id && base[1..][j].data == cur[i].data;
          assert base[j + 1] == base[1..][j];
        }
      }
    } else if i > 0 {
      DeltaAt(cur[1..], base, i - 1);
    }
  }

  // ---------------------------------------------------------------- what a packet leaves out

  /** How much of the baseline has been passed when the entities of `cur` have been compared. */
  ghost function Passed(cur: seq<Entity>, base: seq<Entity>): (n: nat)
    ensures n <= |base|
  {
    if cur == [] then 0
    else if base != [] && base[0].id == cur[0].id then 1 + Passed(cur[1..], base[1..])
    else Passed(cur[1..], base)
  }

  /** `at[k]` is the place in `cur` of entity `k` of `base`. */
  ghost predicate Places(base: seq<Entity>, cur: seq<Entity>, at: seq<nat>) {
    && |at| == |base| && (forall k :: 0 <= k < |at| ==> at[k] < |cur| && cur[at[k]].id == base[k].id)
    && forall k, l :: 0 <= k < l < |at| ==> at[k] < at[l]
  }

  /** The entities of `base` occur in `cur`, in the same order. */
  ghost predicate Within(base: seq<Entity>, cur: seq<Entity>) {
    exists at :: Places(base, cur, at)
  }

  /** What has been passed occurs among what has been compared. */
  lemma {:induction false} PassedIsWithin(cur: seq<Entity>, base: seq<Entity>) returns (at: seq<nat>)
    ensures Places(base[..Passed(cur, base)], cur, at)
    decreases |cur|
  {
    if cur == [] {
      at := [];
    } else if base != [] && base[0].id == cur[0].id {
      var rest := PassedIsWithin(cur[1..], base[1..]);
      at := [0] + Shifted(rest);
      assert base[1..][..Passed(cur[1..], base[1..])] == base[..Passed(cur, base)][1..];
    } else {
      var rest := PassedIsWithin(cur[1..], base);
      at := Shifted(rest);
    }
  }

  ghost function Shifted(at: seq<nat>): (r: seq<nat>) {
    seq(|at|, k requires 0 <= k < |at| => at[k] + 1)
  }

  /** No start of the baseline that occurs among them is longer. */
  lemma {:induction false} PassedIsMost(cur: seq<Entity>, base: seq<Entity>, j: nat, at: seq<nat>)
    requires j <= |base| && Places(base[..j], cur, at)
    ensures j <= Passed(cur, base)
    decreases |cur|
  {
    if j > 0 {
      assert at[0] < |cur|;
      var back := seq(|at|, k requires 0 <= k < |at| => if at[k] > 0 then at[k] - 1 else 0);
      if base[0].id == cur[0].id {
        assert base[1..][..j - 1] == base[..j][1..];
        assert Places(base[1..][..j - 1], cur[1..], back[1..]);
        PassedIsMost(cur[1..], base[1..], j - 1, back[1..]);
      } else {
        assert at[0] > 0 by { assert cur[at[0]].id == base[..j][0].id; }
        assert Places(base[..j], cur[1..], back);
        PassedIsMost(cur[1..], base, j, back);
      }
    }
  }

  /** An entity is compared with the one of the baseline that the entities before it have led to. */
  lemma {:induction false} ComparedAt(cur: seq<Entity>, base: seq<Entity>, i: nat)
    requires i < |cur|
    ensures var p := Passed(cur[..i], base);
      Deltas(cur, base)[i].data.None? <==> p < |base| && base[p].id == cur[i].id && base[p].data == cur[i].data
    decreases |cur|
  {
    if i > 0 {
      assert cur[..i][1..] == cur[1..][..i - 1];
      var rest := if base != [] && base[0].id == cur[0].id then base[1..] else base;
      ComparedAt(cur[1..], rest, i - 1);
    }
  }

  /** The baseline has the same entity with the same bytes at `j`, and the entities it has before occur, in its
      order, before the entity at `i`. */
  ghost predicate KnownAt(cur: seq<Entity>, base: seq<Entity>, i: nat, j: nat)
    requires i < |cur|
  {
    j < |base| && base[j].id == cur[i].id && base[j].data == cur[i].data && Within(base[..j], cur[..i])
  }

  /** Exactly what a packet leaves out.  Behind an entity of the baseline that is gone everything is sent in
      full; an entity that is new makes no difference to those behind it. */
  lemma LeftOutExactly(cur: seq<Entity>, base: seq<Entity>, i: nat)
    requires Distinct(cur) && i < |cur|
    ensures Deltas(cur, base)[i].data.None? <==> exists j: nat :: KnownAt(cur, base, i, j)
  {
    var before, p := cur[..i], Passed(cur[..i], base);
    ComparedAt(cur, base, i);
    if Deltas(cur, base)[i].data.None? {
      var at := PassedIsWithin(before, base);
      assert KnownAt(cur, base, i, p);
    }
    if j: nat :| KnownAt(cur, base, i, j) {
      var at :| Places(base[..j], before, at);
      PassedIsMost(before, base, j, at);
      var all := PassedIsWithin(before, base);
      if j < p { assert false; }
    }
  }

  ghost predicate Names(ds: seq<Delta>, k: int) {
    exists i :: 0 <= i < |ds| && ds[i].id == k
  }

  predicate DistinctDeltas(ds: seq<Delta>) {
    forall i, j :: 0 <= i < j < |ds| ==> ds[i].id != ds[j].id
  }

  lemma {:induction false} ReadOthers(r: map<int, Replica>, ds: seq<Delta>, now: nat, stale: Stale, k: int)
    requires !Names(ds, k)
    ensures var r' := ReadAll(r, ds, now, stale);
      (k in r' <==> k in r) && (k in r ==> r'[k] == r[k])
    decreases |ds|
  {
    if ds != [] {
      assert ds[0].id != k;
      assert forall i :: 0 <= i < |ds[1..]| ==> ds[1..][i] == ds[i + 1];
      ReadOthers(ReadOne(r, ds[0], now, stale), ds[1..], now, stale, k);
    }
  }

  lemma {:induction false} ReadNamed(r: map<int, Replica>, ds: seq<Delta>, now: nat, stale: Stale, i: nat)
    requires DistinctDeltas(ds) && i < |ds|
    ensures var r', d := ReadAll(r, ds, now, stale), ds[i];
      var data := if d.data.Some? then d.data.value else Prior(r, d.id, stale);
      d.id in r' && r'[d.id] == Replica(data, now, Doomed(r, d.id))
    decreases |ds|
  {
    var r1, rest := ReadOne(r, ds[0], now, stale), ds[1..];
    assert forall j :: 0 <= j < |rest| ==> rest[j] == ds[j + 1];
    if i == 0 {
      assert !Names(rest, ds[0].id);
      ReadOthers(r1, rest, now, stale, ds[0].id);
    } else {
      assert ds[i] == rest[i - 1];
      ReadNamed(r1, rest, now, stale, i - 1);
    }
  }

  /** What a packet cannot tell: copies that differ where it says nothing has changed. */
  ghost predicate Carried(r: map<int, Replica>, ds: seq<Delta>, s: seq<Entity>, stale: Stale)
    requires |ds| == |s|
  {
    forall i :: 0 <= i < |s| && ds[i].data.None? ==> Prior(r, s[i].id, stale) == s[i].data
  }

  /** No copy of an entity that is gone was seen by an earlier packet of the same update. */
  ghost predicate NoneLingers(r: map<int, Replica>, s: seq<Entity>, now: nat) {
    forall k :: k in r && r[k].seen == now && !r[k].doomed ==> Has(s, k)
  }

  /** No entity of the snapshot has a copy that an earlier packet marked for removal. */
  ghost predicate NoneDoomed(r: map<int, Replica>, s: seq<Entity>) {
    forall i :: 0 <= i < |s| ==> !Doomed(r, s[i].id)
  }

  lemma DeltasName(s: seq<Entity>, base: seq<Entity>)
    requires Distinct(s)
    ensures DistinctDeltas(Deltas(s, base))
    ensures forall k :: Names(Deltas(s, base), k) <==> Has(s, k)
  {
    forall i | 0 <= i < |s| ensures Deltas(s, base)[i].id == s[i].id { DeltaAt(s, base, i); }
  }

  /** The copy of the entity at `i` once everything is read. */
  lemma ReadAt(r: map<int, Replica>, s: seq<Entity>, base: seq<Entity>, now: nat, stale: Stale, i: nat)
    requires Distinct(s) && i < |s|
    ensures var after, d := Read(r, Deltas(s, base), now, stale), Deltas(s, base)[i];
      && s[i].id in after && after[s[i].id].data == (if d.data.Some? then s[i].data else Prior(r, s[i].id, stale))
      && after[s[i].id].doomed == Doomed(r, s[i].id)
  {
    DeltasName(s, base);
    DeltaAt(s, base, i);
    ReadNamed(r, Deltas(s, base), now, stale, i);
  }

  /** What becomes of a copy that the packet does not name. */
  lemma ReadBeside(r: map<int, Replica>, s: seq<Entity>, base: seq<Entity>, now: nat, stale: Stale, k: int)
    requires Distinct(s) && !Has(s, k)
    ensures var after := Read(r, Deltas(s, base), now, stale);
      (k in after && !after[k].doomed) <==> (k in r && !r[k].doomed && r[k].seen == now)
  {
    DeltasName(s, base);
    ReadOthers(r, Deltas(s, base), now, stale, k);
  }

  /** Exactly when the copies agree with the snapshot that a packet was made from. */
  lemma AcceptExact(r: map<int, Replica>, s: seq<Entity>, base: seq<Entity>, now: nat, stale: Stale)
    requires Distinct(s)
    ensures Agrees(Read(r, Deltas(s, base), now, stale), s) <==>
      Carried(r, Deltas(s, base), s, stale) && NoneLingers(r, s, now) && NoneDoomed(r, s)
  {
    var after, ds := Read(r, Deltas(s, base), now, stale), Deltas(s, base);
    forall i | 0 <= i < |s| ensures s[i].id in after && after[s[i].id].doomed == Doomed(r, s[i].id)
      && (after[s[i].id].data == s[i].data <==> ds[i].data.None? ==> Prior(r, s[i].id, stale) == s[i].data) {
      ReadAt(r, s, base, now, stale, i);
    }
    forall k | !Has(s, k) ensures (k in after && !after[k].doomed) <==> (k in r && !r[k].doomed && r[k].seen == now) {
      ReadBeside(r, s, base, now, stale, k);
    }
    AgreesIff(after, r, ds, s, now, stale);
  }

  lemma AgreesIff(after: map<int, Replica>, r: map<int, Replica>, ds: seq<Delta>, s: seq<Entity>, now: nat,
        stale: Stale)
    requires |ds| == |s|
    requires forall i :: 0 <= i < |s| ==> s[i].id in after && after[s[i].id].doomed == Doomed(r, s[i].id)
    requires forall i :: 0 <= i < |s| ==>
      (after[s[i].id].data == s[i].data <==> ds[i].data.None? ==> Prior(r, s[i].id, stale) == s[i].data)
    requires forall k :: !Has(s, k) ==>
      ((k in after && !after[k].doomed) <==> (k in r && !r[k].doomed && r[k].seen == now))
    ensures Agrees(after, s) <==> Carried(r, ds, s, stale) && NoneLingers(r, s, now) && NoneDoomed(r, s)
  {
  }

  /** An entity that one packet leaves out and another packet of the same update names again is lost at the
      next update of the entity table, whatever was written to it. */
  lemma DroppedAndNamed(r: map<int, Replica>, s1: seq<Entity>, b1: seq<Entity>, s2: seq<Entity>, b2: seq<Entity>,
                        now: nat, stale: Stale, k: int)
    requires Distinct(s1) && Distinct(s2) && k in r && r[k].seen != now && !Has(s1, k) && Has(s2, k)
    ensures k !in Settled(Read(Read(r, Deltas(s1, b1), now, stale), Deltas(s2, b2), now, stale))
  {
    DeltasName(s1, b1);
    ReadOthers(r, Deltas(s1, b1), now, stale, k);
    var r1 := Read(r, Deltas(s1, b1), now, stale);
    var i :| 0 <= i < |s2| && s2[i].id == k;
    ReadAt(r1, s2, b2, now, stale, i);
  }

  // ---------------------------------------------------------------- one delivery, in terms of snapshots

  ghost predicate SameIds(s: seq<Entity>, t: seq<Entity>) {
    && (forall i :: 0 <= i < |s| ==> Has(t, s[i].id))
    && (forall j :: 0 <= j < |t| ==> Has(s, t[j].id))
  }

  ghost predicate Clean(r: map<int, Replica>) {
    forall k :: k in r ==> !r[k].doomed
  }

  predicate Contains(s: seq<Entity>, id: int, data: Bytes) {
    exists j :: 0 <= j < |s| && s[j].id == id && s[j].data == data
  }

  /** Every entity the packet leaves out has the same bytes in the snapshot accepted before. */
  ghost predicate LeftOutAsIn(m: seq<Entity>, s: seq<Entity>, base: seq<Entity>) {
    forall i :: 0 <= i < |s| && Deltas(s, base)[i].data.None? ==> Contains(m, s[i].id, s[i].data)
  }

  /** The packet made from `s` against `base`, delivered when the copies are snapshot `m` of the same entities:
      the copies become `s` exactly if what it leaves out is as it was in `m`. */
  lemma DeliveryExact(r: map<int, Replica>, m: seq<Entity>, s: seq<Entity>, base: seq<Entity>, now: nat, stale: Stale)
    requires Distinct(m) && Distinct(s) && SameIds(m, s) && Agrees(r, m) && Clean(r)
    ensures Agrees(Read(r, Deltas(s, base), now, stale), s) <==> LeftOutAsIn(m, s, base)
    ensures Clean(Read(r, Deltas(s, base), now, stale))
  {
    var ds := Deltas(s, base);
    forall i | 0 <= i < |s| ensures Prior(r, s[i].id, stale) == s[i].data <==> Contains(m, s[i].id, s[i].data) {
      var j :| 0 <= j < |m| && m[j].id == s[i].id;
    }
    AcceptExact(r, s, base, now, stale);
    assert NoneLingers(r, s, now) && NoneDoomed(r, s);
    forall k | k in Read(r, ds, now, stale) ensures !Read(r, ds, now, stale)[k].doomed {
      CleanAt(r, m, s, base, now, stale, k);
    }
  }

  lemma CleanAt(r: map<int, Replica>, m: seq<Entity>, s: seq<Entity>, base: seq<Entity>, now: nat, stale: Stale, k: int)
    requires Distinct(s) && SameIds(m, s) && Agrees(r, m) && Clean(r) && k in Read(r, Deltas(s, base), now, stale)
    ensures !Read(r, Deltas(s, base), now, stale)[k].doomed
  {
    if Has(s, k) {
      var i :| 0 <= i < |s| && s[i].id == k;
      ReadAt(r, s, base, now, stale, i);
    } else {
      DeltasName(s, base);
      ReadOthers(r, Deltas(s, base), now, stale, k);
      assert false;
    }
  }

  // ---------------------------------------------------------------- two peers

  /** A peer with its history: every packet it sent, its snapshots, and the packets it accepted. */
  datatype Side = Side(peer: Peer, sent: set<Packet>, hist: seq<seq<Entity>>, accepted: seq<int>)

  datatype System = System(x: Side, y: Side)

  /** A peer begins an update, a packet that the other side sent at some time arrives, or the entity table is
      updated. */
  datatype Step = BeginUpdate(world: seq<Entity>) | Deliver(packet: Packet, stale: Stale) | EcsUpdate

  datatype Event = Event(atX: bool, step: Step)

  function InitPeer(): Peer {
    Peer(0, -1, -1, seq(MAX_SNAPSHOTS, _ => Snapshot(0, [])), map[])
  }

  function InitSystem(): System {
    System(Side(InitPeer(), {}, [], []), Side(InitPeer(), {}, [], []))
  }

  predicate SideEnabled(me: Side, other: Side, step: Step) {
    RingOk(me.peer) && (step.Deliver? ==> step.packet in other.sent && me.peer.sequence > 0)
  }

  function SideNext(me: Side, step: Step): Side
    requires SideEnabled(me, Side(me.peer, if step.Deliver? then {step.packet} else {}, [], []), step)
  {
    match step
    case BeginUpdate(world) =>
      Side(Snapshotted(me.peer, world).(sequence := me.peer.sequence + 1), me.sent + {Outgoing(me.peer, world)},
           me.hist + [world], me.accepted)
    case Deliver(packet, stale) =>
      me.(peer := Received(me.peer, packet, stale),
          accepted := if packet.sequence <= me.peer.incoming then me.accepted else me.accepted + [packet.sequence])
    case EcsUpdate => me.(peer := me.peer.(replicas := Settled(me.peer.replicas)))
  }

  predicate Enabled(s: System, e: Event) {
    if e.atX then SideEnabled(s.x, s.y, e.step) else SideEnabled(s.y, s.x, e.step)
  }

  function Next(s: System, e: Event): System
    requires Enabled(s, e)
  {
    if e.atX then s.(x := SideNext(s.x, e.step)) else s.(y := SideNext(s.y, e.step))
  }

  /** A run; None if it comes to a step that is not enabled. */
  function Exec(s: System, events: seq<Event>): Option<System>
    decreases |events|
  {
    if events == [] then Some(s)
    else if Enabled(s, events[0]) then Exec(Next(s, events[0]), events[1..])
    else None
  }

  // ---------------------------------------------------------------- acknowledgements

  function BaseOf(hist: seq<seq<Entity>>, a: int): seq<Entity> {
    if 0 <= a < |hist| then hist[a] else []
  }

  /** Made from snapshot p.sequence against snapshot `a`. */
  ghost predicate MadeFrom(hist: seq<seq<Entity>>, p: Packet, a: int) {
    && p.sequence < |hist| && -1 <= a < p.sequence && (a >= 0 ==> p.sequence < a + MAX_SNAPSHOTS)
    && p.deltas == Deltas(hist[p.sequence], BaseOf(hist, a))
  }

  /** The baseline of a packet is no newer than what the receiver has accepted. */
  ghost predicate PacketOk(hist: seq<seq<Entity>>, p: Packet, limit: int) {
    exists a :: a <= limit && MadeFrom(hist, p, a)
  }

  predicate InRing(ring: seq<Snapshot>, hist: seq<seq<Entity>>, n: nat)
    requires |ring| == MAX_SNAPSHOTS
  {
    n < |hist| && ring[n % MAX_SNAPSHOTS] == Snapshot(n, hist[n])
  }

  /** The ring holds the last snapshots. */
  ghost predicate RingMatches(p: Peer, hist: seq<seq<Entity>>) {
    && RingOk(p) && p.sequence == |hist|
    && forall n: nat {:trigger InRing(p.ring, hist, n)} :: |hist| - MAX_SNAPSHOTS <= n < |hist| ==>
      InRing(p.ring, hist, n)
  }

  /** The baseline at snapshot `n` when `a` is acknowledged: none if `a` has left the ring. */
  function BaseAt(hist: seq<seq<Entity>>, a: int, n: nat): seq<Entity> {
    if n < a + MAX_SNAPSHOTS then BaseOf(hist, a) else []
  }

  ghost predicate AcceptedOk(to: Side, bound: int) {
    && (to.accepted == [] ==> to.peer.incoming == -1)
    && (to.accepted != [] ==> to.peer.incoming == to.accepted[|to.accepted| - 1])
    && (forall i, j :: 0 <= i < j < |to.accepted| ==> to.accepted[i] < to.accepted[j])
    && (forall n :: n in to.accepted ==> 0 <= n < bound)
  }

  /** -1, or a snapshot that `to` has accepted. */
  predicate Acked(to: Side, a: int) {
    a == -1 || a in to.accepted
  }

  /** Acknowledgements grow along the packets a peer sends. */
  ghost predicate AcksGrow(to: Side) {
    && (forall p :: p in to.sent ==> p.sequence < to.peer.sequence && Acked(to, p.ack) && p.ack <= to.peer.incoming)
    && (forall p, q :: p in to.sent && q in to.sent && p.sequence <= q.sequence ==> p.ack <= q.ack)
  }

  /** `from` knows the acknowledgement in the last packet it accepted. */
  ghost predicate Knows(from: Side, to: Side) {
    || (from.peer.incoming == -1 && from.peer.ack == -1)
    || exists p :: p in to.sent && p.sequence == from.peer.incoming && p.ack == from.peer.ack
  }

  /** What holds of the packets from one side to the other. */
  ghost predicate Direction(from: Side, to: Side) {
    && RingMatches(from.peer, from.hist)
    && (forall p {:trigger PacketOk(from.hist, p, to.peer.incoming)} :: p in from.sent ==>
      PacketOk(from.hist, p, to.peer.incoming))
    && AcceptedOk(to, |from.hist|) && AcksGrow(to) && Knows(from, to)
  }

  lemma AckedBound(to: Side, bound: int, a: int)
    requires AcceptedOk(to, bound) && Acked(to, a)
    ensures -1 <= a <= to.peer.incoming && (a == -1 || a < bound)
  {
    assert to.accepted != [] ==> to.accepted[|to.accepted| - 1] in to.accepted;
    if a != -1 {
      var i :| 0 <= i < |to.accepted| && to.accepted[i] == a;
      assert i == |to.accepted| - 1 || to.accepted[i] < to.accepted[|to.accepted| - 1];
    }
  }

  lemma MadeFromGrows(hist: seq<seq<Entity>>, world: seq<Entity>, p: Packet, limit: int, limit': int)
    requires PacketOk(hist, p, limit) && limit <= limit'
    ensures PacketOk(hist, p, limit') && PacketOk(hist + [world], p, limit')
  {
    var a :| a <= limit && MadeFrom(hist, p, a);
    assert MadeFrom(hist + [world], p, a);
  }

  lemma RingKept(p: Peer, hist: seq<seq<Entity>>, world: seq<Entity>)
    requires RingMatches(p, hist)
    ensures RingMatches(Snapshotted(p, world).(sequence := p.sequence + 1), hist + [world])
  {
    var ring', hist', last := Snapshotted(p, world).ring, hist + [world], |hist|;
    forall n: nat | |hist'| - MAX_SNAPSHOTS <= n < |hist'| ensures InRing(ring', hist', n) {
      if n < last {
        assert InRing(p.ring, hist, n);
        Apart(n, last);
      }
    }
  }

  lemma Apart(n: nat, last: nat)
    requires n < last < n + MAX_SNAPSHOTS
    ensures n % MAX_SNAPSHOTS != last % MAX_SNAPSHOTS
  {
  }

  /** What exactly a packet is made against. */
  lemma OutgoingExact(p: Peer, hist: seq<seq<Entity>>, world: seq<Entity>)
    requires RingMatches(p, hist) && p.ack < |hist|
    ensures Outgoing(p, world) == Packet(|hist|, p.incoming, Deltas(world, BaseAt(hist + [world], p.ack, |hist|)))
  {
    RingKept(p, hist, world);
    var ring', hist', n := Snapshotted(p, world).ring, hist + [world], |hist|;
    if 0 <= p.ack && n < p.ack + MAX_SNAPSHOTS {
      assert InRing(ring', hist', p.ack);
    } else if 0 <= p.ack {
      var k := n - (n - p.ack) % MAX_SNAPSHOTS;
      SameSlot(n, p.ack);
      assert InRing(ring', hist', k);
    }
  }

  /** The snapshot in the ring that has displaced an old one. */
  lemma SameSlot(n: nat, a: nat)
    requires a + MAX_SNAPSHOTS <= n
    ensures var k := n - (n - a) % MAX_SNAPSHOTS;
      0 <= k && n - MAX_SNAPSHOTS < k <= n && k % MAX_SNAPSHOTS == a % MAX_SNAPSHOTS
  {
  }

  /** A new packet is a difference to a snapshot the receiver has accepted, or complete. */
  lemma OutgoingOk(from: Side, to: Side, world: seq<Entity>)
    requires Direction(from, to)
    ensures RingOk(from.peer)
    ensures PacketOk(from.hist + [world], Outgoing(from.peer, world), to.peer.incoming)
    ensures RingMatches(Snapshotted(from.peer, world).(sequence := from.peer.sequence + 1), from.hist + [world])
  {
    var p, hist' := from.peer, from.hist + [world];
    RingKept(p, from.hist, world);
    assert Acked(to, p.ack);
    AckedBound(to, |from.hist|, p.ack);
    OutgoingExact(p, from.hist, world);
    if 0 <= p.ack && |from.hist| < p.ack + MAX_SNAPSHOTS {
      assert MadeFrom(hist', Outgoing(p, world), p.ack);
    } else {
      assert MadeFrom(hist', Outgoing(p, world), -1);
    }
  }

  lemma SendingKept(from: Side, to: Side, world: seq<Entity>)
    requires Direction(from, to)
    ensures Direction(SideNext(from, BeginUpdate(world)), to)
  {
    OutgoingOk(from, to, world);
    var from' := SideNext(from, BeginUpdate(world));
    forall p | p in from'.sent ensures PacketOk(from'.hist, p, to.peer.incoming) {
      if p in from.sent {
        assert PacketOk(from.hist, p, to.peer.incoming);
        MadeFromGrows(from.hist, world, p, to.peer.incoming, to.peer.incoming);
      }
    }
  }

  lemma LearningKept(from: Side, to: Side, packet: Packet, stale: Stale)
    requires Direction(from, to) && packet in to.sent && from.peer.sequence > 0
    ensures Direction(SideNext(from, Deliver(packet, stale)), to)
    ensures from.peer.ack <= SideNext(from, Deliver(packet, stale)).peer.ack
  {
    if packet.sequence > from.peer.incoming {
      assert Acked(to, packet.ack);
      AckedBound(to, |from.hist|, packet.ack);
    }
  }

  lemma AnsweringKept(from: Side, to: Side, world: seq<Entity>)
    requires Direction(from, to) && RingOk(to.peer)
    ensures Direction(from, SideNext(to, BeginUpdate(world)))
  {
    var to' := SideNext(to, BeginUpdate(world));
    assert Acked(to, to.peer.incoming) by {
      assert to.accepted != [] ==> to.accepted[|to.accepted| - 1] in to.accepted;
    }
    assert to'.peer.incoming == to.peer.incoming && to'.accepted == to.accepted;
    forall p | p in to'.sent
      ensures p.sequence < to'.peer.sequence && Acked(to', p.ack) && p.ack <= to'.peer.incoming {
      if p in to.sent { assert Acked(to, p.ack); }
    }
    assert Knows(from, to');
  }

  lemma AcceptingKept(from: Side, to: Side, packet: Packet, stale: Stale)
    requires Direction(from, to) && packet in from.sent && to.peer.sequence > 0 && RingOk(to.peer)
    ensures Direction(from, SideNext(to, Deliver(packet, stale)))
  {
    var to' := SideNext(to, Deliver(packet, stale));
    if packet.sequence > to.peer.incoming {
      assert PacketOk(from.hist, packet, to.peer.incoming);
      forall p | p in from.sent ensures PacketOk(from.hist, p, to'.peer.incoming) {
        assert PacketOk(from.hist, p, to.peer.incoming);
        MadeFromGrows(from.hist, [], p, to.peer.incoming, to'.peer.incoming);
      }
      forall n | n in to.accepted ensures n <= to.peer.incoming {
        assert Acked(to, n);
        AckedBound(to, |from.hist|, n);
      }
      assert forall a :: Acked(to, a) ==> Acked(to', a);
    }
  }

  lemma SettlingKept(from: Side, to: Side)
    requires Direction(from, to)
    ensures RingOk(from.peer) && Direction(SideNext(from, EcsUpdate), to)
    ensures RingOk(to.peer) ==> Direction(from, SideNext(to, EcsUpdate))
  {
  }

  ghost predicate Inv(s: System) {
    Direction(s.x, s.y) && Direction(s.y, s.x)
  }

  lemma InitInv()
    ensures Inv(InitSystem())
  {
  }

  /** Every step keeps both directions in order, and no acknowledgement goes back. */
  lemma InvKept(s: System, e: Event)
    requires Inv(s) && Enabled(s, e)
    ensures Inv(Next(s, e))
    ensures s.x.peer.ack <= Next(s, e).x.peer.ack && s.y.peer.ack <= Next(s, e).y.peer.ack
  {
    var me, other := if e.atX then s.x else s.y, if e.atX then s.y else s.x;
    match e.step
    case BeginUpdate(world) =>
      SendingKept(me, other, world);
      AnsweringKept(other, me, world);
    case Deliver(packet, stale) =>
      LearningKept(me, other, packet, stale);
      AcceptingKept(other, me, packet, stale);
    case EcsUpdate =>
      SettlingKept(me, other);
      SettlingKept(other, me);
  }

  lemma {:induction false} RunInv(s: System, events: seq<Event>)
    requires Inv(s) && Exec(s, events).Some?
    ensures Inv(Exec(s, events).value)
    ensures s.x.peer.ack <= Exec(s, events).value.x.peer.ack && s.y.peer.ack <= Exec(s, events).value.y.peer.ack
    decreases |events|
  {
    if events != [] {
      InvKept(s, events[0]);
      RunInv(Next(s, events[0]), events[1..]);
    }
  }

  lemma KnownIsAccepted(from: Side, to: Side)
    requires Direction(from, to)
    ensures Acked(to, from.peer.ack)
  {
  }

  /** In every run, whatever is lost, repeated or reordered: what a peer takes as acknowledged never goes
      back, and is a snapshot that the other side has accepted. */
  lemma AcksAreHonest(events: seq<Event>, more: seq<Event>)
    requires Exec(InitSystem(), events).Some? && Exec(Exec(InitSystem(), events).value, more).Some?
    ensures var s, t := Exec(InitSystem(), events).value, Exec(Exec(InitSystem(), events).value, more).value;
      && s.x.peer.ack <= t.x.peer.ack && s.y.peer.ack <= t.y.peer.ack
      && Acked(s.y, s.x.peer.ack) && Acked(s.x, s.y.peer.ack)
  {
    InitInv();
    RunInv(InitSystem(), events);
    var s := Exec(InitSystem(), events).value;
    RunInv(s, more);
    KnownIsAccepted(s.x, s.y);
    KnownIsAccepted(s.y, s.x);
  }

  // ---------------------------------------------------------------- replication

  /** An entity with the same bytes in `a` and in `n` has them in `m`, too. */
  predicate Stays(a: seq<Entity>, m: seq<Entity>, n: seq<Entity>) {
    forall i, j, k :: 0 <= i < |a| && 0 <= j < |m| && 0 <= k < |n| ==>
      (a[i].id == m[j].id == n[k].id && a[i].data == n[k].data ==> m[j].data == n[k].data)
  }

  /** Always the same entities. */
  ghost predicate FixedSet(hist: seq<seq<Entity>>) {
    && (forall n {:trigger Distinct(hist[n])} :: 0 <= n < |hist| ==> Distinct(hist[n]))
    && (forall m, n {:trigger SameIds(hist[m], hist[n])} :: 0 <= m < n < |hist| ==> SameIds(hist[m], hist[n]))
  }

  /** No entity returns, as long as a snapshot is in the ring, to a value it had there and has left. */
  ghost predicate NoReturn(hist: seq<seq<Entity>>) {
    forall a, m, n {:trigger Stays(hist[a], hist[m], hist[n])} ::
      0 <= a < m < n < |hist| && n < a + MAX_SNAPSHOTS ==> Stays(hist[a], hist[m], hist[n])
  }

  /** The copies are the snapshot that was accepted last. */
  ghost predicate Faithful(from: Side, to: Side) {
    && to.peer.incoming < |from.hist|
    && if to.peer.incoming < 0 then to.peer.replicas == map[] else Agrees(to.peer.replicas, from.hist[to.peer.incoming])
  }

  lemma NothingMissed(base: seq<Entity>, m: seq<Entity>, s: seq<Entity>)
    requires Distinct(m) && SameIds(m, s) && (base == [] || base == m || Stays(base, m, s))
    ensures LeftOutAsIn(m, s, base)
  {
    forall i | 0 <= i < |s| && Deltas(s, base)[i].data.None? ensures Contains(m, s[i].id, s[i].data) {
      DeltaAt(s, base, i);
      var k :| 0 <= k < |base| && base[k].id == s[i].id && base[k].data == s[i].data;
      var j :| 0 <= j < |m| && m[j].id == s[i].id;
      StaysAt(base, m, s, k, j, i);
    }
  }

  lemma StaysAt(a: seq<Entity>, m: seq<Entity>, n: seq<Entity>, i: nat, j: nat, k: nat)
    requires Distinct(m) && (a == m || Stays(a, m, n))
    requires i < |a| && j < |m| && k < |n| && a[i].id == m[j].id == n[k].id && a[i].data == n[k].data
    ensures m[j].data == n[k].data
  {
  }

  /** The first packet is complete. */
  lemma FirstAccept(s: seq<Entity>, now: nat, stale: Stale)
    requires Distinct(s)
    ensures Agrees(Read(map[], Deltas(s, []), now, stale), s) && Clean(Read(map[], Deltas(s, []), now, stale))
  {
    forall i | 0 <= i < |s| ensures Deltas(s, [])[i].data.Some? { DeltaAt(s, [], i); }
    AcceptExact(map[], s, [], now, stale);
    forall k | k in Read(map[], Deltas(s, []), now, stale) ensures !Read(map[], Deltas(s, []), now, stale)[k].doomed {
      FirstIsClean(s, now, stale, k);
    }
  }

  lemma FirstIsClean(s: seq<Entity>, now: nat, stale: Stale, k: int)
    requires Distinct(s) && k in Read(map[], Deltas(s, []), now, stale)
    ensures !Read(map[], Deltas(s, []), now, stale)[k].doomed
  {
    DeltasName(s, []);
    if Has(s, k) {
      var i :| 0 <= i < |s| && s[i].id == k;
      ReadAt(map[], s, [], now, stale, i);
    } else {
      ReadOthers(map[], Deltas(s, []), now, stale, k);
      assert false;
    }
  }

  lemma AcceptFaithfully(hist: seq<seq<Entity>>, r: map<int, Replica>, p: Packet, m: int, now: nat, stale: Stale)
    requires FixedSet(hist) && NoReturn(hist) && -1 <= m < p.sequence < |hist| && PacketOk(hist, p, m) && Clean(r)
    requires if m < 0 then r == map[] else Agrees(r, hist[m])
    ensures Agrees(Read(r, p.deltas, now, stale), hist[p.sequence]) && Clean(Read(r, p.deltas, now, stale))
  {
    var a :| a <= m && MadeFrom(hist, p, a);
    var s, base := hist[p.sequence], BaseOf(hist, a);
    assert Distinct(s);
    if m < 0 {
      FirstAccept(s, now, stale);
    } else {
      assert Distinct(hist[m]) && SameIds(hist[m], s) && (a < 0 || a == m || Stays(hist[a], hist[m], s));
      NothingMissed(base, hist[m], s);
      DeliveryExact(r, hist[m], s, base, now, stale);
    }
  }

  function From(s: System, d: bool): Side { if d then s.x else s.y }

  /** Faithful copies, none of them pending removal. */
  ghost predicate Copied(from: Side, to: Side) {
    Faithful(from, to) && Clean(to.peer.replicas)
  }

  lemma CopiedKept(s: System, e: Event, d: bool)
    requires Inv(s) && Enabled(s, e) && Copied(From(s, d), From(s, !d)) && FixedSet(From(s, d).hist)
    requires NoReturn(From(s, d).hist)
    ensures Copied(From(Next(s, e), d), From(Next(s, e), !d))
  {
    if e.atX != d {
      match e.step
      case BeginUpdate(_) =>
      case Deliver(packet, stale) => DeliveredFaithfully(From(s, d), From(s, !d), packet, stale);
      case EcsUpdate => NothingToSettle(From(s, !d).peer.replicas);
    }
  }

  lemma NothingToSettle(r: map<int, Replica>)
    requires Clean(r)
    ensures Settled(r) == r
  {
    assert forall k :: k in Settled(r) <==> k in r;
    assert Settled(r).Keys == r.Keys;
  }

  lemma DeliveredFaithfully(from: Side, to: Side, p: Packet, stale: Stale)
    requires Direction(from, to) && Copied(from, to) && FixedSet(from.hist) && NoReturn(from.hist) && p in from.sent
    requires RingOk(to.peer) && to.peer.sequence > 0
    ensures Copied(from, SideNext(to, Deliver(p, stale)))
  {
    if p.sequence > to.peer.incoming {
      assert PacketOk(from.hist, p, to.peer.incoming);
      assert to.accepted != [] ==> to.accepted[|to.accepted| - 1] in to.accepted;
      AcceptFaithfully(from.hist, to.peer.replicas, p, to.peer.incoming, to.peer.sequence - 1, stale);
    }
  }

  lemma {:induction false} HistoryGrows(s: System, events: seq<Event>, d: bool)
    requires Exec(s, events).Some?
    ensures From(s, d).hist <= From(Exec(s, events).value, d).hist
    decreases |events|
  {
    if events != [] { HistoryGrows(Next(s, events[0]), events[1..], d); }
  }

  lemma {:induction false} RunCopied(s: System, events: seq<Event>, d: bool)
    requires Inv(s) && Copied(From(s, d), From(s, !d)) && Exec(s, events).Some?
    requires FixedSet(From(Exec(s, events).value, d).hist) && NoReturn(From(Exec(s, events).value, d).hist)
    ensures Copied(From(Exec(s, events).value, d), From(Exec(s, events).value, !d))
    decreases |events|
  {
    if events != [] {
      HistoryGrows(s, events, d);
      SteadyBefore(From(s, d).hist, From(Exec(s, events).value, d).hist);
      InvKept(s, events[0]);
      CopiedKept(s, events[0], d);
      RunCopied(Next(s, events[0]), events[1..], d);
    }
  }

  lemma SteadyBefore(h: seq<seq<Entity>>, h': seq<seq<Entity>>)
    requires h <= h'
    ensures FixedSet(h') ==> FixedSet(h)
    ensures NoReturn(h') ==> NoReturn(h)
  {
    assert forall n :: 0 <= n < |h| ==> h[n] == h'[n];
    if FixedSet(h') {
      forall n | 0 <= n < |h| ensures Distinct(h[n]) { assert Distinct(h'[n]); }
      forall m, n | 0 <= m < n < |h| ensures SameIds(h[m], h[n]) { assert SameIds(h'[m], h'[n]); }
    }
    if NoReturn(h') {
      forall a, m, n | 0 <= a < m < n < |h| && n < a + MAX_SNAPSHOTS ensures Stays(h[a], h[m], h[n]) {
        assert Stays(h'[a], h'[m], h'[n]);
      }
    }
  }

  /** For a fixed set of entities none of which returns, within the reach of the ring, to a value it has left,
      and over any channel: after a peer accepts packet n, its copies are snapshot n of the other side. */
  lemma Replication(events: seq<Event>, d: bool)
    requires Exec(InitSystem(), events).Some?
    requires var hist := From(Exec(InitSystem(), events).value, d).hist; FixedSet(hist) && NoReturn(hist)
    ensures var s := Exec(InitSystem(), events).value; Faithful(From(s, d), From(s, !d))
  {
    InitInv();
    RunCopied(InitSystem(), events, d);
  }

  // ---------------------------------------------------------------- exactly when

  /** Always the same entities in the same order. */
  ghost predicate FixedOrder(hist: seq<seq<Entity>>) {
    && (forall n {:trigger Distinct(hist[n])} :: 0 <= n < |hist| ==> Distinct(hist[n]))
    && (forall m, n {:trigger Aligned(hist[m], hist[n])} :: 0 <= m < |hist| && 0 <= n < |hist| ==>
      Aligned(hist[m], hist[n]))
  }

  predicate Aligned(s: seq<Entity>, t: seq<Entity>) {
    |s| == |t| && forall i :: 0 <= i < |s| ==> s[i].id == t[i].id
  }

  lemma OrderedSet(hist: seq<seq<Entity>>)
    requires FixedOrder(hist)
    ensures FixedSet(hist)
  {
    forall m, n | 0 <= m < n < |hist| ensures SameIds(hist[m], hist[n]) {
      assert Aligned(hist[m], hist[n]);
      AlignedIds(hist[m], hist[n]);
    }
  }

  lemma AlignedIds(s: seq<Entity>, t: seq<Entity>)
    requires Aligned(s, t)
    ensures SameIds(s, t)
  {
    forall i | 0 <= i < |s| ensures Has(t, s[i].id) && Has(s, t[i].id) { assert t[i].id == s[i].id; }
  }

  /** Between aligned snapshots exactly the entities with the same bytes are left out. */
  lemma {:induction false} AlignedDelta(s: seq<Entity>, base: seq<Entity>, i: nat)
    requires Aligned(s, base) && i < |s|
    ensures Deltas(s, base)[i].data.None? <==> s[i].data == base[i].data
    decreases |s|
  {
    if i > 0 { AlignedDelta(s[1..], base[1..], i - 1); }
  }

  lemma {:induction false} ExecAppend(s: System, a: seq<Event>, b: seq<Event>)
    requires Exec(s, a).Some?
    ensures Exec(s, a + b) == Exec(Exec(s, a).value, b)
    decreases |a|
  {
    if a == [] {
      assert a + b == b;
    } else {
      assert (a + b)[1..] == a[1..] + b;
      ExecAppend(Next(s, a[0]), a[1..], b);
    }
  }

  lemma ExecOne(s: System, e: Event)
    requires Enabled(s, e)
    ensures Exec(s, [e]) == Some(Next(s, e))
  {
  }

  /** The packet of the snapshot taken last. */
  function LastPacket(p: Peer, hist: seq<seq<Entity>>): Packet
    requires hist != []
  {
    var n := |hist| - 1;
    Packet(n, p.incoming, Deltas(hist[n], BaseAt(hist, p.ack, n)))
  }

  /** Side `t` is side `s` after it has begun some updates. */
  ghost predicate Advanced(s: Side, t: Side, hist: seq<seq<Entity>>) {
    && t.hist == hist && t.accepted == s.accepted && t.peer.incoming == s.peer.incoming && t.peer.ack == s.peer.ack
    && t.peer.replicas == s.peer.replicas && t.peer.sequence == |hist|
  }

  lemma SideSends(me: Side, other: Side, w: seq<Entity>)
    requires Direction(me, other)
    ensures RingOk(me.peer) && Advanced(me, SideNext(me, BeginUpdate(w)), me.hist + [w])
    ensures LastPacket(me.peer, me.hist + [w]) in SideNext(me, BeginUpdate(w)).sent
  {
    KnownIsAccepted(me, other);
    AckedBound(other, |me.hist|, me.peer.ack);
    OutgoingExact(me.peer, me.hist, w);
  }

  /** One step more. */
  lemma Continue(past: seq<Event>, s: System, e: Event) returns (events: seq<Event>, t: System)
    requires Exec(InitSystem(), past) == Some(s) && Enabled(s, e)
    ensures t == Next(s, e) && Exec(InitSystem(), events) == Some(t)
  {
    t := Next(s, e);
    ExecOne(s, e);
    ExecAppend(InitSystem(), past, [e]);
    events := past + [e];
  }

  lemma ReachedInv(past: seq<Event>, s: System, d: bool)
    requires Exec(InitSystem(), past) == Some(s)
    ensures Direction(From(s, d), From(s, !d)) && RingOk(From(s, d).peer) && RingOk(From(s, !d).peer)
  {
    InitInv();
    RunInv(InitSystem(), past);
  }

  lemma SendOne(past: seq<Event>, s: System, d: bool, w: seq<Entity>) returns (events: seq<Event>, t: System)
    requires Exec(InitSystem(), past) == Some(s)
    ensures Exec(InitSystem(), events) == Some(t) && From(t, !d) == From(s, !d)
    ensures Advanced(From(s, d), From(t, d), From(s, d).hist + [w])
    ensures LastPacket(From(s, d).peer, From(s, d).hist + [w]) in From(t, d).sent
  {
    ReachedInv(past, s, d);
    SideSends(From(s, d), From(s, !d), w);
    events, t := Continue(past, s, Event(d, BeginUpdate(w)));
  }

  /** A peer begins updates up to snapshot |hist| - 1, and nothing arrives. */
  lemma {:induction false} SendUpTo(past: seq<Event>, s: System, d: bool, hist: seq<seq<Entity>>)
    returns (events: seq<Event>, t: System)
    requires Exec(InitSystem(), past) == Some(s) && From(s, d).hist <= hist && |From(s, d).hist| < |hist|
    ensures Exec(InitSystem(), events) == Some(t) && From(t, !d) == From(s, !d)
    ensures Advanced(From(s, d), From(t, d), hist) && LastPacket(From(s, d).peer, hist) in From(t, d).sent
    decreases |hist|
  {
    var n := |hist| - 1;
    var before, mid := past, s;
    if |From(s, d).hist| < n { before, mid := SendUpTo(past, s, d, hist[..n]); }
    assert hist[..n] + [hist[n]] == hist && From(mid, d).hist == hist[..n];
    events, t := SendOne(before, mid, d, hist[n]);
  }

  /** A packet in transit arrives. */
  lemma Arrive(past: seq<Event>, s: System, d: bool, packet: Packet, stale: Stale)
    returns (events: seq<Event>, t: System)
    requires Exec(InitSystem(), past) == Some(s) && packet in From(s, d).sent && From(s, !d).peer.sequence > 0
    ensures Exec(InitSystem(), events) == Some(t) && From(t, d) == From(s, d)
    ensures From(t, !d).hist == From(s, !d).hist && From(t, !d).peer == Received(From(s, !d).peer, packet, stale)
  {
    ReachedInv(past, s, d);
    events, t := Continue(past, s, Event(!d, Deliver(packet, stale)));
  }

  /** The receiver has snapshot `a` and the sender knows it. */
  ghost predicate Shaken(s: System, d: bool, hist: seq<seq<Entity>>, a: nat)
    requires a < |hist|
  {
    var from, to := From(s, d), From(s, !d);
    && from.hist == hist[..a + 1] && from.peer.ack == a && to.peer.sequence > 0
    && to.peer.incoming == a && Agrees(to.peer.replicas, hist[a]) && Clean(to.peer.replicas)
  }

  /** The first packet that arrives is complete. */
  lemma FirstArrival(hist: seq<seq<Entity>>, d: bool, a: nat) returns (events: seq<Event>, s: System)
    requires a < |hist| && Distinct(hist[a])
    ensures Exec(InitSystem(), events) == Some(s)
    ensures var from, to := From(s, d), From(s, !d);
      && from.hist == hist[..a + 1] && from.peer.incoming == -1 && from.peer.sequence == a + 1
      && to.hist == [[]] && to.peer.sequence == 1 && to.peer.incoming == a && to.peer.ack == -1
      && Agrees(to.peer.replicas, hist[a]) && Clean(to.peer.replicas)
  {
    var h := hist[..a + 1];
    var stale: Stale := k => [];
    events, s := SendUpTo([], InitSystem(), d, h);
    events, s := SendOne(events, s, !d, []);
    events, s := Arrive(events, s, d, LastPacket(InitPeer(), h), stale);
    FirstAccept(hist[a], 0, stale);
  }

  /** The exchange that makes snapshot `a` the baseline. */
  lemma Handshake(hist: seq<seq<Entity>>, d: bool, a: nat) returns (events: seq<Event>, s: System)
    requires a < |hist| && Distinct(hist[a])
    ensures Exec(InitSystem(), events) == Some(s) && Shaken(s, d, hist, a)
  {
    var stale: Stale := k => [];
    events, s := FirstArrival(hist, d, a);
    var peer := From(s, !d).peer;
    assert From(s, !d).hist + [[]] == [[], []];
    events, s := SendOne(events, s, !d, []);
    events, s := Arrive(events, s, !d, LastPacket(peer, [[], []]), stale);
  }

  /** Updates up to snapshot `n`, of which only the last packet arrives. */
  lemma Skip(past: seq<Event>, s: System, d: bool, hist: seq<seq<Entity>>, n: nat, stale: Stale)
    returns (events: seq<Event>, t: System)
    requires Exec(InitSystem(), past) == Some(s) && n < |hist| && From(s, d).hist <= hist[..n + 1]
    requires |From(s, d).hist| <= n
    requires From(s, !d).peer.sequence > 0 && From(s, !d).peer.incoming < n
    ensures Exec(InitSystem(), events) == Some(t) && From(t, d).hist == hist[..n + 1]
    ensures From(t, d).peer.ack == From(s, d).peer.ack
    ensures
      var p, q := From(s, !d).peer, From(t, !d).peer;
      var deltas := Deltas(hist[n], BaseAt(hist[..n + 1], From(s, d).peer.ack, n));
      && q.sequence == p.sequence && q.incoming == n
      && q.replicas == Read(p.replicas, deltas, p.sequence - 1, stale)
  {
    var h, packet := hist[..n + 1], LastPacket(From(s, d).peer, hist[..n + 1]);
    events, t := SendUpTo(past, s, d, h);
    events, t := Arrive(events, t, d, packet, stale);
  }

  /** An entity that returns at `n` to the value it had at `a`, having had another at `m`: the packet of `n`
      says "unchanged", and a receiver that accepted `m` in between keeps the value of `m`. */
  lemma ReturnIsMissed(hist: seq<seq<Entity>>, d: bool, a: nat, m: nat, n: nat, i: nat)
    returns (events: seq<Event>, t: System)
    requires FixedOrder(hist) && a < m < n < |hist| && n < a + MAX_SNAPSHOTS && i < |hist[a]| && i < |hist[m]|
    requires i < |hist[n]|
    requires hist[a][i].data == hist[n][i].data != hist[m][i].data
    ensures Exec(InitSystem(), events) == Some(t) && From(t, d).hist == hist[..n + 1]
    ensures From(t, !d).peer.incoming == n && !Agrees(From(t, !d).peer.replicas, hist[n])
  {
    assert Distinct(hist[a]) && Distinct(hist[m]) && Distinct(hist[n]);
    assert Aligned(hist[m], hist[a]) && Aligned(hist[n], hist[a]);
    PrefixBase(hist, a, m);
    PrefixBase(hist, a, n);
    var stale: Stale := k => [];
    events, t := Handshake(hist, d, a);
    var now, r := From(t, !d).peer.sequence - 1, From(t, !d).peer.replicas;
    events, t := Skip(events, t, d, hist, m, stale);
    var r1 := From(t, !d).peer.replicas;
    events, t := Skip(events, t, d, hist, n, stale);
    KeepsOldValue(r, r1, hist[a], hist[m], hist[n], now, stale, i);
  }

  lemma PrefixBase(hist: seq<seq<Entity>>, a: nat, n: nat)
    requires a < n < |hist| && n < a + MAX_SNAPSHOTS
    ensures BaseAt(hist[..n + 1], a, n) == hist[a] && hist[..a + 1] <= hist[..n + 1]
  {
  }

  lemma KeepsOldValue(r: map<int, Replica>, r1: map<int, Replica>, a: seq<Entity>, m: seq<Entity>, n: seq<Entity>,
                      now: nat, stale: Stale, i: nat)
    requires Distinct(m) && Distinct(n) && Aligned(m, a) && Aligned(n, a) && i < |a|
    requires a[i].data == n[i].data != m[i].data && r1 == Read(r, Deltas(m, a), now, stale)
    ensures !Agrees(Read(r1, Deltas(n, a), now, stale), n)
  {
    AlignedDelta(m, a, i);
    ReadAt(r, m, a, now, stale, i);
    AlignedDelta(n, a, i);
    ReadAt(r1, n, a, now, stale, i);
  }

  /** All runs in which the sender's snapshots are the given ones, or their beginning. */
  ghost predicate AlwaysFaithful(hist: seq<seq<Entity>>, d: bool) {
    forall events :: Exec(InitSystem(), events).Some? && From(Exec(InitSystem(), events).value, d).hist <= hist
      ==> Faithful(From(Exec(InitSystem(), events).value, d), From(Exec(InitSystem(), events).value, !d))
  }

  /** For a fixed set of entities in a fixed order, the copies are right in every run, over any channel,
      exactly if no entity returns, within the reach of the ring, to a value it has left. */
  lemma FaithfulIff(hist: seq<seq<Entity>>, d: bool)
    requires FixedOrder(hist)
    ensures AlwaysFaithful(hist, d) <==> NoReturn(hist)
  {
    OrderedSet(hist);
    if NoReturn(hist) {
      forall events | Exec(InitSystem(), events).Some? && From(Exec(InitSystem(), events).value, d).hist <= hist
        ensures Faithful(From(Exec(InitSystem(), events).value, d), From(Exec(InitSystem(), events).value, !d))
      {
        SteadyBefore(From(Exec(InitSystem(), events).value, d).hist, hist);
        Replication(events, d);
      }
    } else {
      var a, m, n :| 0 <= a < m < n < |hist| && n < a + MAX_SNAPSHOTS && !Stays(hist[a], hist[m], hist[n]);
      var i := Returns(hist, a, m, n);
      var events, t := ReturnIsMissed(hist, d, a, m, n, i);
      assert From(t, d).hist[n] == hist[n];
    }
  }

  lemma Returns(hist: seq<seq<Entity>>, a: nat, m: nat, n: nat) returns (i: nat)
    requires FixedOrder(hist) && a < m < n < |hist| && !Stays(hist[a], hist[m], hist[n])
    ensures i < |hist[a]| && i < |hist[m]| && i < |hist[n]| && hist[a][i].data == hist[n][i].data != hist[m][i].data
  {
    assert Aligned(hist[a], hist[m]) && Aligned(hist[a], hist[n]) && Distinct(hist[a]);
    var x, y, z :| 0 <= x < |hist[a]| && 0 <= y < |hist[m]| && 0 <= z < |hist[n]| &&
      hist[a][x].id == hist[m][y].id == hist[n][z].id && hist[a][x].data == hist[n][z].data != hist[m][y].data;
    i := x;
    assert hist[a][y].id == hist[m][y].id && hist[a][z].id == hist[n][z].id;
  }
}
