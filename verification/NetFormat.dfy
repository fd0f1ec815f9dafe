/** The bytes of snapshots and packets in src/net.c, and the cursors that write and read them.

    Buffers that are only read are sequences of bytes; `sizes` gives the replicated bytes of each type. */
module NetFormat {
  import opened Wrappers
  import opened Net

  const MTU := 1024
  const INT_LIMIT := 0x8000_0000

  // ---------------------------------------------------------------- integers

  predicate IsInt(v: int) { -INT_LIMIT <= v < INT_LIMIT }

  /** A 32-bit integer in two's complement, lowest byte first. */
  function IntBytes(v: int): (r: Bytes)
    requires IsInt(v)
    ensures |r| == 4
  {
    var u := if v < 0 then v + 2 * INT_LIMIT else v;
    var v1 := u / 256;
    var v2 := v1 / 256;
    [(u % 256) as Byte, (v1 % 256) as Byte, (v2 % 256) as Byte, (v2 / 256) as Byte]
  }

  function IntAt(b: Bytes, i: nat): int
    requires i + 4 <= |b|
  {
    var u := b[i] as int + 256 * (b[i + 1] as int + 256 * (b[i + 2] as int + 256 * (b[i + 3] as int)));
    if u >= INT_LIMIT then u - 2 * INT_LIMIT else u
  }

  /** The place values of four bytes, lowest first. */
  function Weighed(b: Bytes, i: nat): int
    requires i + 4 <= |b|
  {
    b[i] as int + 0x100 * b[i + 1] as int + 0x1_0000 * b[i + 2] as int + 0x100_0000 * b[i + 3] as int
  }

  /** The bytes of an integer weigh as much as it does, negative ones 2^32 more; so reading them does not depend
      on how they were written. */
  lemma LowestFirst(v: int, b: Bytes, i: nat)
    requires IsInt(v) && i + 4 <= |b|
    ensures b[i..i + 4] == IntBytes(v) <==> Weighed(b, i) == if v < 0 then v + 2 * INT_LIMIT else v
    ensures IntAt(b, i) == v <==> Weighed(b, i) == if v < 0 then v + 2 * INT_LIMIT else v
  {
    var w, z := b[i..i + 4], IntBytes(v);
    assert w[0] == b[i] && w[1] == b[i + 1] && w[2] == b[i + 2] && w[3] == b[i + 3];
    assert Weighed(z, 0) == if v < 0 then v + 2 * INT_LIMIT else v;
    if Weighed(b, i) == Weighed(z, 0) {
      assert w[0] == z[0] && w[1] == z[1] && w[2] == z[2] && w[3] == z[3];
      assert w == z;
    }
  }

  lemma IntRoundTrip(v: int, b: Bytes, i: nat)
    requires IsInt(v) && i + 4 <= |b| && b[i..i + 4] == IntBytes(v)
    ensures IntAt(b, i) == v
  {
    var u := if v < 0 then v + 2 * INT_LIMIT else v;
    var w := b[i..i + 4];
    assert b[i] == w[0] && b[i + 1] == w[1] && b[i + 2] == w[2] && b[i + 3] == w[3];
  }

  // ---------------------------------------------------------------- entities

  const HEADER := 8

  predicate EntityOk(e: Entity, sizes: seq<nat>) {
    e.kind < |sizes| && |e.data| == sizes[e.kind] && IsInt(e.kind) && IsInt(e.id)
  }

  predicate AllOk(s: seq<Entity>, sizes: seq<nat>) {
    forall i :: 0 <= i < |s| ==> EntityOk(s[i], sizes)
  }

  function HeaderBytes(kind: nat, id: int): (r: Bytes)
    requires IsInt(kind) && IsInt(id)
    ensures |r| == HEADER
  {
    IntBytes(kind) + IntBytes(id)
  }

  function EntityBytes(e: Entity, sizes: seq<nat>): (r: Bytes)
    requires EntityOk(e, sizes)
    ensures |r| == HEADER + sizes[e.kind]
  {
    HeaderBytes(e.kind, e.id) + e.data
  }

  function SnapshotBytes(s: seq<Entity>, sizes: seq<nat>): Bytes
    requires AllOk(s, sizes)
  {
    if s == [] then [] else EntityBytes(s[0], sizes) + SnapshotBytes(s[1..], sizes)
  }

  predicate DeltaOk(d: Delta, sizes: seq<nat>) {
    && d.kind < |sizes| && IsInt(d.kind) && IsInt(d.id)
    && (d.data.Some? ==> |d.data.value| == sizes[d.kind])
  }

  predicate AllDeltasOk(ds: seq<Delta>, sizes: seq<nat>) {
    forall i :: 0 <= i < |ds| ==> DeltaOk(ds[i], sizes)
  }

  function OneDeltaBytes(d: Delta, sizes: seq<nat>): Bytes
    requires DeltaOk(d, sizes)
  {
    HeaderBytes(d.kind, d.id) + (if d.data.Some? then [1] + d.data.value else [0])
  }

  function DeltaBytes(ds: seq<Delta>, sizes: seq<nat>): Bytes
    requires AllDeltasOk(ds, sizes)
  {
    if ds == [] then [] else OneDeltaBytes(ds[0], sizes) + DeltaBytes(ds[1..], sizes)
  }

  lemma {:induction false} DeltasOk(cur: seq<Entity>, base: seq<Entity>, sizes: seq<nat>)
    requires AllOk(cur, sizes)
    ensures AllDeltasOk(Deltas(cur, base), sizes)
  {
    forall i | 0 <= i < |cur| ensures DeltaOk(Deltas(cur, base)[i], sizes) { DeltaAt(cur, base, i); }
  }

  /** What a buffer holds from `at` on: a header, then something. */
  lemma HeaderAt(kind: nat, id: int, b: Bytes, at: nat, rest: Bytes)
    requires IsInt(kind) && IsInt(id) && at <= |b| && b[at..] == HeaderBytes(kind, id) + rest
    ensures at + HEADER <= |b| && IntAt(b, at) == kind && IntAt(b, at + 4) == id
    ensures b[at..at + HEADER] == HeaderBytes(kind, id) && b[at + HEADER..] == rest
  {
    assert |b[at..]| == HEADER + |rest|;
    assert b[at..at + 4] == b[at..][..4] == IntBytes(kind);
    assert b[at + 4..at + 8] == b[at..][4..8] == IntBytes(id);
    IntRoundTrip(kind, b, at);
    IntRoundTrip(id, b, at + 4);
    assert b[at..at + HEADER] == b[at..][..HEADER];
    assert b[at + HEADER..] == b[at..][HEADER..];
  }

  /** The first entity of a snapshot, as its bytes show it. */
  lemma FirstEntity(s: seq<Entity>, sizes: seq<nat>, b: Bytes, at: nat)
    requires AllOk(s, sizes) && s != [] && at <= |b| && b[at..] == SnapshotBytes(s, sizes)
    ensures at + HEADER + |s[0].data| <= |b| && IntAt(b, at) == s[0].kind && IntAt(b, at + 4) == s[0].id
    ensures b[at..at + HEADER] == HeaderBytes(s[0].kind, s[0].id)
    ensures b[at + HEADER..at + HEADER + |s[0].data|] == s[0].data
    ensures b[at + HEADER + |s[0].data|..] == SnapshotBytes(s[1..], sizes)
  {
    var rest := s[0].data + SnapshotBytes(s[1..], sizes);
    assert SnapshotBytes(s, sizes) == HeaderBytes(s[0].kind, s[0].id) + rest;
    HeaderAt(s[0].kind, s[0].id, b, at, rest);
    assert |rest| == |b| - at - HEADER;
    assert b[at + HEADER..at + HEADER + |s[0].data|] == b[at + HEADER..][..|s[0].data|];
    assert b[at + HEADER + |s[0].data|..] == b[at + HEADER..][|s[0].data|..];
  }

  /** The first entry of a packet, as its bytes show it. */
  lemma FirstDelta(ds: seq<Delta>, sizes: seq<nat>, b: Bytes, at: nat)
    requires AllDeltasOk(ds, sizes) && ds != [] && at <= |b| && b[at..] == DeltaBytes(ds, sizes)
    ensures at + HEADER < |b| && IntAt(b, at) == ds[0].kind && IntAt(b, at + 4) == ds[0].id
    ensures b[at + HEADER] == if ds[0].data.Some? then 1 else 0
    ensures ds[0].data.Some? ==>
      var end := at + HEADER + 1 + sizes[ds[0].kind];
      end <= |b| && b[at + HEADER + 1..end] == ds[0].data.value && b[end..] == DeltaBytes(ds[1..], sizes)
    ensures ds[0].data.None? ==> b[at + HEADER + 1..] == DeltaBytes(ds[1..], sizes)
  {
    var flag: Byte := if ds[0].data.Some? then 1 else 0;
    var data: Bytes := if ds[0].data.Some? then ds[0].data.value else [];
    var more := DeltaBytes(ds[1..], sizes);
    assert DeltaBytes(ds, sizes) == HeaderBytes(ds[0].kind, ds[0].id) + ([flag] + data + more);
    HeaderAt(ds[0].kind, ds[0].id, b, at, [flag] + data + more);
    FlagThenData(b, at + HEADER, flag, data, more);
  }

  lemma FlagThenData(b: Bytes, at: nat, flag: Byte, data: Bytes, more: Bytes)
    requires at <= |b| && b[at..] == [flag] + data + more
    ensures at + 1 + |data| <= |b| && b[at] == flag
    ensures b[at + 1..at + 1 + |data|] == data && b[at + 1 + |data|..] == more
  {
    var body := b[at..];
    assert body[0] == flag && body[1..1 + |data|] == data && body[1 + |data|..] == more;
    assert b[at + 1..at + 1 + |data|] == body[1..1 + |data|];
    assert b[at + 1 + |data|..] == body[1 + |data|..];
  }

  // ---------------------------------------------------------------- writing

  /** memcpy into a buffer. */
  method Put(buf: array<Byte>, at: nat, b: Bytes)
    requires at + |b| <= buf.Length
    modifies buf
    ensures buf[..at] == old(buf[..at]) && buf[at..at + |b|] == b && buf[at + |b|..] == old(buf[at + |b|..])
    ensures buf[..at + |b|] == old(buf[..at]) + b
  {
    forall i | at <= i < at + |b| { buf[i] := b[i - at]; }
    assert buf[at..at + |b|] == b;
    assert buf[..at + |b|] == buf[..at] + buf[at..at + |b|];
  }

  /** The entities a snapshot has room for; one that does not fit is skipped, smaller ones behind it are not. */
  function Fitting(s: seq<Entity>, sizes: seq<nat>, room: nat): (r: seq<Entity>)
    requires AllOk(s, sizes)
    ensures AllOk(r, sizes)
  {
    if s == [] then []
    else if sizes[s[0].kind] + HEADER < room then [s[0]] + Fitting(s[1..], sizes, room - HEADER - sizes[s[0].kind])
    else Fitting(s[1..], sizes, room)
  }

  /** The bytes a snapshot of these entities takes. */
  function Taken(s: seq<Entity>, sizes: seq<nat>): nat
    requires AllOk(s, sizes)
  {
    if s == [] then 0 else HEADER + sizes[s[0].kind] + Taken(s[1..], sizes)
  }

  /** An entity is in the snapshot exactly if, behind the ones kept before it, its header and data leave at
      least a byte of the room; the rest of the snapshot does not depend on what comes later. */
  lemma {:induction false} FittingExactly(s: seq<Entity>, sizes: seq<nat>, room: nat, i: nat)
    requires AllOk(s, sizes) && i < |s|
    ensures var kept := Fitting(s[..i], sizes, room);
      Fitting(s[..i + 1], sizes, room) ==
        if Taken(kept, sizes) + HEADER + sizes[s[i].kind] < room then kept + [s[i]] else kept
    decreases |s|
  {
    if i == 0 {
      assert s[..1] == [s[0]] && s[..0] == [];
    } else {
      var rest := s[1..];
      var left := if sizes[s[0].kind] + HEADER < room then room - HEADER - sizes[s[0].kind] else room;
      FittingExactly(rest, sizes, left, i - 1);
      FittingPrefix(s, sizes, room, i);
      FittingPrefix(s, sizes, room, i + 1);
    }
  }

  /** What is kept of a prefix, by its first entity and the others. */
  lemma FittingPrefix(s: seq<Entity>, sizes: seq<nat>, room: nat, i: nat)
    requires AllOk(s, sizes) && 0 < i <= |s|
    ensures AllOk(s[1..], sizes)
    ensures if sizes[s[0].kind] + HEADER < room
      then
        var more := Fitting(s[1..][..i - 1], sizes, room - HEADER - sizes[s[0].kind]);
        && Fitting(s[..i], sizes, room) == [s[0]] + more
        && Taken([s[0]] + more, sizes) == HEADER + sizes[s[0].kind] + Taken(more, sizes)
      else Fitting(s[..i], sizes, room) == Fitting(s[1..][..i - 1], sizes, room)
  {
    assert s[..i][1..] == s[1..][..i - 1] && s[..i][0] == s[0];
    if sizes[s[0].kind] + HEADER < room {
      var more := Fitting(s[1..][..i - 1], sizes, room - HEADER - sizes[s[0].kind]);
      assert ([s[0]] + more)[1..] == more;
    }
  }

  /** The bytes of what fits, entity by entity. */
  lemma FittingBytes(s: seq<Entity>, sizes: seq<nat>, room: nat)
    requires AllOk(s, sizes) && s != []
    ensures SnapshotBytes(Fitting(s, sizes, room), sizes) ==
      if sizes[s[0].kind] + HEADER < room
      then EntityBytes(s[0], sizes) + SnapshotBytes(Fitting(s[1..], sizes, room - HEADER - sizes[s[0].kind]), sizes)
      else SnapshotBytes(Fitting(s[1..], sizes, room), sizes)
  {
    if sizes[s[0].kind] + HEADER < room {
      var more := Fitting(s[1..], sizes, room - HEADER - sizes[s[0].kind]);
      assert ([s[0]] + more)[1..] == more;
    }
  }

  /** The bytes of a packet about these entities at most. */
  function PacketBound(s: seq<Entity>, sizes: seq<nat>): nat
    requires AllOk(s, sizes)
  {
    if s == [] then 0 else HEADER + 1 + sizes[s[0].kind] + PacketBound(s[1..], sizes)
  }

  /** Nothing is skipped when the packet has room for every entity in full and its own header. */
  lemma {:induction false} AllFit(s: seq<Entity>, sizes: seq<nat>, room: nat)
    requires AllOk(s, sizes) && PacketBound(s, sizes) + HEADER <= room
    ensures Fitting(s, sizes, room) == s
    decreases |s|
  {
    if s != [] {
      var rest, left := s[1..], room - HEADER - sizes[s[0].kind];
      assert PacketBound(s, sizes) == HEADER + 1 + sizes[s[0].kind] + PacketBound(rest, sizes);
      AllFit(rest, sizes, left);
      assert Fitting(s, sizes, room) == [s[0]] + Fitting(rest, sizes, left) == [s[0]] + rest == s;
    }
  }

  method PutEntity(buf: array<Byte>, at: nat, e: Entity, sizes: seq<nat>) returns (end: nat)
    requires EntityOk(e, sizes) && at + HEADER + sizes[e.kind] <= buf.Length
    modifies buf
    ensures end == at + HEADER + sizes[e.kind] && buf[..end] == old(buf[..at]) + EntityBytes(e, sizes)
  {
    Put(buf, at, HeaderBytes(e.kind, e.id));
    Put(buf, at + HEADER, e.data);
    end := at + HEADER + |e.data|;
    assert old(buf[..at]) + HeaderBytes(e.kind, e.id) + e.data == old(buf[..at]) + EntityBytes(e, sizes);
  }

  lemma Joined(x: Bytes, y: Bytes, z: Bytes)
    ensures (x + y) + z == x + (y + z)
  {
  }

  /** One round of the loop below. */
  method SnapshotEntity(left: seq<Entity>, sizes: seq<nat>, buf: array<Byte>, at: nat) returns (end: nat)
    requires AllOk(left, sizes) && left != [] && at <= MTU == buf.Length
    modifies buf
    ensures at <= end <= MTU && AllOk(left[1..], sizes)
    ensures buf[..end] + SnapshotBytes(Fitting(left[1..], sizes, MTU - end), sizes)
         == old(buf[..at]) + SnapshotBytes(Fitting(left, sizes, MTU - at), sizes)
  {
    var e := left[0];
    end := at;
    FittingBytes(left, sizes, MTU - at);
    if sizes[e.kind] + HEADER < MTU - at {
      end := PutEntity(buf, at, e, sizes);
      Joined(old(buf[..at]), EntityBytes(e, sizes), SnapshotBytes(Fitting(left[1..], sizes, MTU - end), sizes));
    }
  }

  /** snapshot_entities: serialises what fits. */
  method SnapshotEntities(world: seq<Entity>, sizes: seq<nat>, buf: array<Byte>) returns (size: nat)
    requires AllOk(world, sizes) && buf.Length == MTU
    modifies buf
    ensures size <= MTU && buf[..size] == SnapshotBytes(Fitting(world, sizes, MTU), sizes)
  {
    size := 0;
    var left := world;
    while left != []
      invariant size <= MTU && AllOk(left, sizes)
      invariant buf[..size] + SnapshotBytes(Fitting(left, sizes, MTU - size), sizes)
             == SnapshotBytes(Fitting(world, sizes, MTU), sizes)
    {
      size := SnapshotEntity(left, sizes, buf, size);
      left := left[1..];
    }
  }

  /** An entity keeps its type. */
  predicate SameKinds(c: seq<Entity>, a: seq<Entity>) {
    forall i, j :: 0 <= i < |c| && 0 <= j < |a| && c[i].id == a[j].id ==> c[i].kind == a[j].kind
  }

  /** The entry of an entity against the next one of the baseline, and what remains of the baseline. */
  function DeltaOf(e: Entity, a: seq<Entity>): Delta {
    Delta(e.kind, e.id, if a != [] && a[0].id == e.id && e.data == a[0].data then None else Some(e.data))
  }

  function RestOfBase(e: Entity, a: seq<Entity>): seq<Entity> {
    if a != [] && a[0].id == e.id then a[1..] else a
  }

  lemma DeltasStep(c: seq<Entity>, a: seq<Entity>, sizes: seq<nat>)
    requires c != [] && AllOk(c, sizes)
    ensures DeltaOk(DeltaOf(c[0], a), sizes)
    ensures AllDeltasOk(Deltas(c, a), sizes) && AllDeltasOk(Deltas(c[1..], RestOfBase(c[0], a)), sizes)
    ensures DeltaBytes(Deltas(c, a), sizes)
         == OneDeltaBytes(DeltaOf(c[0], a), sizes) + DeltaBytes(Deltas(c[1..], RestOfBase(c[0], a)), sizes)
  {
    DeltasOk(c, a, sizes);
    DeltasOk(c[1..], RestOfBase(c[0], a), sizes);
    var more := Deltas(c[1..], RestOfBase(c[0], a));
    assert Deltas(c, a) == [DeltaOf(c[0], a)] + more;
    assert ([DeltaOf(c[0], a)] + more)[1..] == more;
  }

  /** Header, flag and data of one entry. */
  method PutDelta(packet: array<Byte>, at: nat, header: Bytes, diff: bool, data: Bytes) returns (end: nat)
    requires at + |header| + 1 + |data| <= packet.Length
    modifies packet
    ensures end == at + |header| + 1 + (if diff then |data| else 0)
    ensures packet[..end] == old(packet[..at]) + (header + (if diff then [1] + data else [0]))
  {
    Put(packet, at, header);
    end := at + |header|;
    Put(packet, end, [if diff then 1 else 0]);
    end := end + 1;
    if diff {
      Put(packet, end, data);
      end := end + |data|;
      assert old(packet[..at]) + header + [1] + data == old(packet[..at]) + (header + ([1] + data));
    }
  }

  /** Compares an entity with the next one of the baseline; the type of the latter is that of the former,
      so both have the same size. */
  method Compare(e: Entity, entSize: nat, ack: Bytes, ackIter: nat, sizes: seq<nat>, ghost a: seq<Entity>)
    returns (diff: bool, next: nat)
    requires EntityOk(e, sizes) && entSize == |e.data| && AllOk(a, sizes) && SameKinds([e], a)
    requires ackIter <= |ack| && ack[ackIter..] == SnapshotBytes(a, sizes)
    ensures diff <==> DeltaOf(e, a).data.Some?
    ensures next <= |ack| && AllOk(RestOfBase(e, a), sizes) && ack[next..] == SnapshotBytes(RestOfBase(e, a), sizes)
  {
    diff, next := true, ackIter;
    if ackIter < |ack| {
      FirstEntity(a, sizes, ack, ackIter);
      if IntAt(ack, ackIter + 4) == e.id {
        assert [e][0].id == a[0].id;
        diff := e.data != ack[ackIter + HEADER..ackIter + HEADER + entSize];
        next := ackIter + HEADER + entSize;
      }
    }
  }

  /** packet_add_entities: the bytes of the difference between two snapshots, from their bytes. */
  method AddEntities(cur: Bytes, ack: Bytes, sizes: seq<nat>, packet: array<Byte>, at: nat,
                     ghost c: seq<Entity>, ghost a: seq<Entity>) returns (end: nat)
    requires AllOk(c, sizes) && AllOk(a, sizes) && SameKinds(c, a)
    requires cur == SnapshotBytes(c, sizes) && ack == SnapshotBytes(a, sizes)
    requires at + PacketBound(c, sizes) <= packet.Length
    modifies packet
    ensures at <= end <= packet.Length && AllDeltasOk(Deltas(c, a), sizes)
    ensures packet[..end] == old(packet[..at]) + DeltaBytes(Deltas(c, a), sizes)
  {
    var curIter: nat, ackIter: nat := 0, 0;
    end := at;
    ghost var cr, ar := c, a;
    DeltasOk(c, a, sizes);
    ghost var whole := old(packet[..at]) + DeltaBytes(Deltas(c, a), sizes);
    while curIter < |cur|
      invariant curIter <= |cur| && ackIter <= |ack| && AllOk(cr, sizes) && AllOk(ar, sizes) && SameKinds(cr, ar)
      invariant cur[curIter..] == SnapshotBytes(cr, sizes)
      invariant ack[ackIter..] == SnapshotBytes(ar, sizes)
      invariant at <= end && end + PacketBound(cr, sizes) <= packet.Length && AllDeltasOk(Deltas(cr, ar), sizes)
      invariant packet[..end] + DeltaBytes(Deltas(cr, ar), sizes) == whole
      decreases |cur| - curIter
    {
      curIter, ackIter, end := AddEntity(cur, curIter, ack, ackIter, sizes, packet, end, cr, ar);
      cr, ar := cr[1..], RestOfBase(cr[0], ar);
    }
  }

  /** One round of the loop. */
  method AddEntity(cur: Bytes, curIter: nat, ack: Bytes, ackIter: nat, sizes: seq<nat>, packet: array<Byte>, at: nat,
                   ghost c: seq<Entity>, ghost a: seq<Entity>) returns (nextCur: nat, nextAck: nat, end: nat)
    requires AllOk(c, sizes) && AllOk(a, sizes) && SameKinds(c, a)
    requires curIter < |cur| && cur[curIter..] == SnapshotBytes(c, sizes)
    requires ackIter <= |ack| && ack[ackIter..] == SnapshotBytes(a, sizes)
    requires at + PacketBound(c, sizes) <= packet.Length
    modifies packet
    ensures curIter < nextCur <= |cur| && nextAck <= |ack| && c != []
    ensures AllOk(c[1..], sizes) && cur[nextCur..] == SnapshotBytes(c[1..], sizes)
    ensures AllOk(RestOfBase(c[0], a), sizes) && ack[nextAck..] == SnapshotBytes(RestOfBase(c[0], a), sizes)
    ensures at <= end && end + PacketBound(c[1..], sizes) <= packet.Length
    ensures AllDeltasOk(Deltas(c, a), sizes) && AllDeltasOk(Deltas(c[1..], RestOfBase(c[0], a)), sizes)
    ensures packet[..end] + DeltaBytes(Deltas(c[1..], RestOfBase(c[0], a)), sizes)
         == old(packet[..at]) + DeltaBytes(Deltas(c, a), sizes)
  {
    FirstEntity(c, sizes, cur, curIter);
    DeltasStep(c, a, sizes);
    var kind, id := IntAt(cur, curIter), IntAt(cur, curIter + 4);
    var header, entSize := cur[curIter..curIter + HEADER], sizes[kind];
    nextCur := curIter + HEADER;
    var data := cur[nextCur..nextCur + entSize];
    var diff;
    diff, nextAck := Compare(Entity(kind, id, data), entSize, ack, ackIter, sizes, a);
    assert Entity(kind, id, data) == c[0];
    nextCur := nextCur + entSize;
    end := PutDelta(packet, at, header, diff, data);
    Joined(old(packet[..at]), OneDeltaBytes(DeltaOf(c[0], a), sizes),
           DeltaBytes(Deltas(c[1..], RestOfBase(c[0], a)), sizes));
  }

  /** One entry of a packet: the copy is found or made, and takes the data if there is any. */
  method ReadEntity(packet: Bytes, at: nat, sizes: seq<nat>, r: map<int, Replica>, now: nat, stale: Stale,
        ghost ds: seq<Delta>)
    returns (r': map<int, Replica>, iter: nat)
    requires AllDeltasOk(ds, sizes) && ds != [] && at < |packet| && packet[at..] == DeltaBytes(ds, sizes)
    ensures r' == ReadOne(r, ds[0], now, stale)
    ensures at < iter <= |packet| && AllDeltasOk(ds[1..], sizes) && packet[iter..] == DeltaBytes(ds[1..], sizes)
  {
    FirstDelta(ds, sizes, packet, at);
    var kind, id := IntAt(packet, at), IntAt(packet, at + 4);
    iter := at + HEADER;
    if id in r {
      r' := r[id := r[id].(seen := now)];
    } else {
      r' := r[id := Replica(stale(id), now, false)];
    }
    var diff := packet[iter] != 0;
    iter := iter + 1;
    if diff {
      r' := r'[id := r'[id].(data := packet[iter..iter + sizes[kind]])];
      iter := iter + sizes[kind];
    }
  }

  /** packet_read_entities: what the bytes do to the copies is what the difference does. */
  method ReadEntities(packet: Bytes, sizes: seq<nat>, r: map<int, Replica>, now: nat, stale: Stale,
        ghost ds: seq<Delta>)
    returns (r': map<int, Replica>)
    requires AllDeltasOk(ds, sizes) && packet == DeltaBytes(ds, sizes)
    ensures r' == Read(r, ds, now, stale)
  {
    var iter := 0;
    r' := r;
    ghost var left := ds;
    while iter < |packet|
      invariant iter <= |packet| && AllDeltasOk(left, sizes) && packet[iter..] == DeltaBytes(left, sizes)
      invariant ReadAll(r', left, now, stale) == ReadAll(r, ds, now, stale)
      decreases |packet| - iter
    {
      r', iter := ReadEntity(packet, iter, sizes, r', now, stale, left);
      left := left[1..];
    }
    r' := Swept(r', now);
  }

  // ---------------------------------------------------------------- a whole packet

  /** packet_send: header, then the difference between two serialised snapshots. */
  method WritePacket(sequence: nat, ack: int, cur: Bytes, base: Bytes, sizes: seq<nat>, packet: array<Byte>,
                     ghost c: seq<Entity>, ghost a: seq<Entity>) returns (size: nat)
    requires IsInt(sequence) && IsInt(ack) && packet.Length == MTU
    requires AllOk(c, sizes) && AllOk(a, sizes) && SameKinds(c, a) && HEADER + PacketBound(c, sizes) <= MTU
    requires cur == SnapshotBytes(c, sizes) && base == SnapshotBytes(a, sizes)
    modifies packet
    ensures size <= MTU && AllDeltasOk(Deltas(c, a), sizes)
    ensures packet[..size] == HeaderBytes(sequence, ack) + DeltaBytes(Deltas(c, a), sizes)
  {
    Put(packet, 0, HeaderBytes(sequence, ack));
    assert packet[..0] == [];
    assert packet[..HEADER] == HeaderBytes(sequence, ack);
    size := AddEntities(cur, base, sizes, packet, HEADER, c, a);
  }

  /** packet_recv on one packet: what arrives is what was sent. */
  method ReadPacket(packet: Bytes, sizes: seq<nat>, p: Peer, stale: Stale, ghost sent: Packet) returns (p': Peer)
    requires p.sequence > 0 && IsInt(sent.sequence) && IsInt(sent.ack) && AllDeltasOk(sent.deltas, sizes)
    requires packet == HeaderBytes(sent.sequence, sent.ack) + DeltaBytes(sent.deltas, sizes)
    ensures p' == Received(p, sent, stale)
  {
    assert packet[0..] == packet;
    HeaderAt(sent.sequence, sent.ack, packet, 0, DeltaBytes(sent.deltas, sizes));
    p' := p;
    var sequence, ack := IntAt(packet, 0), IntAt(packet, 4);
    if sequence > p.incoming {
      var r := ReadEntities(packet[HEADER..], sizes, p.replicas, p.sequence - 1, stale, sent.deltas);
      p' := p.(incoming := sequence, ack := ack, replicas := r);
    }
  }

  /** One update seen from the bytes: the snapshots are serialised, their difference is sent and read, and
      the receiver is where the protocol says.  Every entity has to fit with its flag. */
  method Exchange(sender: Peer, world: seq<Entity>, receiver: Peer, sizes: seq<nat>, stale: Stale) returns (r: Peer)
    requires RingOk(sender) && receiver.sequence > 0 && IsInt(sender.sequence) && IsInt(sender.incoming)
    requires var base := Baseline(Snapshotted(sender, world));
      AllOk(world, sizes) && AllOk(base, sizes) && SameKinds(world, base) && HEADER + PacketBound(world, sizes) <= MTU
      && HEADER + PacketBound(base, sizes) <= MTU
    ensures r == Received(receiver, Outgoing(sender, world), stale)
  {
    ghost var base := Baseline(Snapshotted(sender, world));
    AllFit(world, sizes, MTU);
    AllFit(base, sizes, MTU);
    var cur, ack, packet := new Byte[MTU], new Byte[MTU], new Byte[MTU];
    var curSize := SnapshotEntities(world, sizes, cur);
    var ackSize := SnapshotEntities(Baseline(Snapshotted(sender, world)), sizes, ack);
    var size := WritePacket(sender.sequence, sender.incoming, cur[..curSize], ack[..ackSize], sizes, packet,
                            world, base);
    r := ReadPacket(packet[..size], sizes, receiver, stale, Outgoing(sender, world));
  }
}
