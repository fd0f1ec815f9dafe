/** How the compressor looks for matches: the positions it tries, the hash table it files them in, and what it
    can find there.

    The hash function is a parameter: nothing depends on what it computes. */
module Lz4Search {
  import opened Wrappers
  import opened Lz4Format

  const SKIP_TRIGGER := 64  // 1 << LZ4_skipTrigger
  const MAX_INPUT_SIZE := 0x7E000000
  const LIMIT_64K := 65536 + (MFLIMIT - 1)

  datatype TableType = ByU16 | ByU32

  // ---------------------------------------------------------------- the job

  /** What the search depends on, and one call never changes. */
  datatype Job = Job(src: seq<byte>, tableType: TableType, hash: seq<byte> -> nat)
  {
    function Slots(): nat { if tableType == ByU16 then 8192 else 4096 }

    /** Bytes hashed at a position: LZ4_hash4 for 16-bit tables, LZ4_hash5 for 32-bit ones. */
    function Width(): nat { if tableType == ByU16 then 4 else 8 }

    ghost predicate Valid() {
      && (forall s :: hash(s) < Slots())
      && MFLIMIT < |src| <= MAX_INPUT_SIZE
      && (tableType == ByU16 ==> |src| < LIMIT_64K)
    }

    function HashPosition(p: nat): nat
      requires p + 8 <= |src|
    {
      hash(src[p..p + Width()])
    }
  }

  /** Every entry of the table is 0 or an earlier position filed under its own hash. */
  ghost predicate Indexed(j: Job, table: array<nat>, limit: int)
    reads table
  {
    && table.Length == j.Slots()
    && forall h :: 0 <= h < table.Length ==>
      table[h] == 0 || (table[h] < limit && table[h] + MFLIMIT <= |j.src| && j.HashPosition(table[h]) == h)
  }

  // ---------------------------------------------------------------- what can be found

  /** The table once position `p` is filed. */
  function Filed(j: Job, t: seq<nat>, p: nat): (r: seq<nat>)
    ensures |r| == |t|
  {
    if p + 8 <= |j.src| && j.HashPosition(p) < |t| then t[j.HashPosition(p) := p] else t
  }

  /** The position filed last under the hash of the bytes at `p`. */
  function Candidate(j: Job, t: seq<nat>, p: nat): nat {
    if p + 8 <= |j.src| && j.HashPosition(p) < |t| then t[j.HashPosition(p)] else 0
  }

  /** It is within reach, and the same four bytes stand there. */
  predicate Hit(j: Job, t: seq<nat>, p: nat) {
    var m := Candidate(j, t, p);
    && m + 4 <= |j.src| && p + 4 <= |j.src|
    && (j.tableType == ByU16 || p <= m + DISTANCE_MAX) && j.src[m..m + 4] == j.src[p..p + 4]
  }

  /** Whatever the hash: a text that repeats the one filed last under its hash is found. */
  lemma RepeatIsFound(j: Job, t: seq<nat>, q: nat, p: nat)
    requires j.Valid() && |t| == j.Slots() && q < p && p + 8 <= |j.src| && p <= q + DISTANCE_MAX
    requires j.src[q..q + j.Width()] == j.src[p..p + j.Width()]
    ensures Hit(j, Filed(j, t, q), p) && Candidate(j, Filed(j, t, q), p) == q
  {
    assert j.src[q..q + 4] == j.src[q..q + j.Width()][..4];
    assert j.src[p..p + 4] == j.src[p..p + j.Width()][..4];
  }

  method PutIndex(j: Job, table: array<nat>, idx: nat, h: nat)
    requires j.Valid() && Indexed(j, table, idx) && 0 < idx && idx + MFLIMIT <= |j.src| && h == j.HashPosition(idx)
    modifies table
    ensures Indexed(j, table, idx + 1) && table[..] == Filed(j, old(table[..]), idx)
  {
    table[h] := if j.tableType == ByU16 then idx % 65536 else idx;
  }

  /** Files a position, and says whether what was filed under its hash before is a match. */
  method TryPosition(j: Job, table: array<nat>, current: nat, h: nat) returns (hit: bool, m: nat)
    requires j.Valid() && Indexed(j, table, current) && 0 < current && current + MFLIMIT <= |j.src|
    requires h == j.HashPosition(current)
    modifies table
    ensures hit <==> Hit(j, old(table[..]), current)
    ensures m == Candidate(j, old(table[..]), current) && m < current
    ensures hit ==> current <= m + DISTANCE_MAX && j.src[m..m + 4] == j.src[current..current + 4]
    ensures Indexed(j, table, current + 1) && table[..] == Filed(j, old(table[..]), current)
  {
    m := table[h];
    PutIndex(j, table, current, h);
    hit := (j.tableType == ByU16 || m + DISTANCE_MAX >= current) && j.src[m..m + 4] == j.src[current..current + 4];
  }

  // ---------------------------------------------------------------- finding a match

  /** From one position that is tried to the next: a byte at first, and more the more tries have failed. */
  function Stride(acceleration: nat, k: nat): nat {
    if k == 0 then 1 else (acceleration * SKIP_TRIGGER + (k - 1)) / SKIP_TRIGGER
  }

  /** The `k`-th position that is tried from `p` on. */
  function Probe(p: nat, acceleration: nat, k: nat): nat {
    if k == 0 then p else Probe(p, acceleration, k - 1) + Stride(acceleration, k - 1)
  }

  lemma {:induction false} ProbesAscend(p: nat, acceleration: nat, k: nat, l: nat)
    requires 1 <= acceleration && k < l
    ensures Probe(p, acceleration, k) < Probe(p, acceleration, l)
    decreases l
  {
    assert acceleration * SKIP_TRIGGER >= SKIP_TRIGGER;
    if k < l - 1 { ProbesAscend(p, acceleration, k, l - 1); }
  }

  /** Without acceleration no position is passed over in the first 65 tries. */
  lemma {:induction false} EarlyProbes(p: nat, k: nat)
    requires k <= 65
    ensures Probe(p, 1, k) == p + k
    decreases k
  {
    if k > 1 { EarlyProbes(p, k - 1); }
  }

  /** The table when the first `k` of these positions are filed. */
  function Tables(j: Job, t: seq<nat>, p: nat, acceleration: nat, k: nat): (r: seq<nat>)
    ensures |r| == |t|
  {
    if k == 0 then t else Filed(j, Tables(j, t, p, acceleration, k - 1), Probe(p, acceleration, k - 1))
  }

  /** Holds of everything; a proof mentions it to look into HitAt and Searching. */
  predicate Try(k: nat) { true }

  /** The `k`-th try has a match. */
  ghost predicate HitAt(j: Job, t: seq<nat>, p: nat, acceleration: nat, k: nat) {
    forall i {:trigger Try(i)} :: Try(i) && i == k ==>
      Hit(j, Tables(j, t, p, acceleration, i), Probe(p, acceleration, i))
  }

  /** The search goes on as long as the next position is not beyond this one. */
  function LastStart(j: Job): int { |j.src| - MFLIMIT + 1 }

  /** The first try from the `k`-th on that has a match, if there is one before the end. */
  ghost function FirstTry(j: Job, t: seq<nat>, p: nat, acceleration: nat, k: nat): (f: Option<nat>)
    requires 1 <= acceleration
    ensures f.Some? ==> k <= f.value
    decreases LastStart(j) + 1 - Probe(p, acceleration, k)
  {
    ProbesAscend(p, acceleration, k, k + 1);
    if LastStart(j) < Probe(p, acceleration, k + 1) then None
    else if HitAt(j, t, p, acceleration, k) then Some(k)
    else FirstTry(j, t, p, acceleration, k + 1)
  }

  /** The try that is taken has a match, and the next one is not beyond the end. */
  lemma {:induction false} TakenIsHit(j: Job, t: seq<nat>, p: nat, acceleration: nat, k: nat, i: nat)
    requires 1 <= acceleration && FirstTry(j, t, p, acceleration, k) == Some(i)
    ensures k <= i && HitAt(j, t, p, acceleration, i) && Probe(p, acceleration, i + 1) <= LastStart(j)
    decreases i - k
  {
    if k < i { TakenIsHit(j, t, p, acceleration, k + 1, i); }
  }

  /** If any such try has a match, one is taken, and none after it. */
  lemma {:induction false} HitIsTaken(j: Job, t: seq<nat>, p: nat, acceleration: nat, k: nat, i: nat)
    requires 1 <= acceleration && k <= i
    requires HitAt(j, t, p, acceleration, i) && Probe(p, acceleration, i + 1) <= LastStart(j)
    ensures FirstTry(j, t, p, acceleration, k).Some? && FirstTry(j, t, p, acceleration, k).value <= i
    decreases i - k
  {
    if k < i {
      assert Probe(p, acceleration, k + 1) <= LastStart(j) by { ProbesAscend(p, acceleration, k + 1, i + 1); }
      HitIsTaken(j, t, p, acceleration, k + 1, i);
      assert FirstTry(j, t, p, acceleration, k) ==
        if HitAt(j, t, p, acceleration, k) then Some(k) else FirstTry(j, t, p, acceleration, k + 1);
    }
  }

  /** What a search comes to. */
  datatype Finding = NoMatch | Match(ip: nat, m: nat, table: seq<nat>)

  ghost function Search(j: Job, t: seq<nat>, p: nat, acceleration: nat): Finding
    requires 1 <= acceleration
  {
    match FirstTry(j, t, p, acceleration, 0)
    case None => NoMatch
    case Some(k) =>
      var now, at := Tables(j, t, p, acceleration, k), Probe(p, acceleration, k);
      Match(at, Candidate(j, now, at), Filed(j, now, at))
  }

  /** The search has come to the `k`-th try, at the position `at`, without a match. */
  ghost predicate Searching(j: Job, t: seq<nat>, p: nat, acceleration: nat, k: nat, at: nat, step: nat, now: seq<nat>)
    requires 1 <= acceleration
  {
    forall i: nat {:trigger Try(i)} :: Try(i) && i == k ==>
      && at == Probe(p, acceleration, i) && step == Stride(acceleration, i) && now == Tables(j, t, p, acceleration, i)
      && FirstTry(j, t, p, acceleration, 0) == FirstTry(j, t, p, acceleration, i)
  }

  lemma SearchBegins(j: Job, t: seq<nat>, p: nat, acceleration: nat)
    requires 1 <= acceleration
    ensures Searching(j, t, p, acceleration, 0, p, 1, t)
  {
  }

  lemma SearchHits(j: Job, t: seq<nat>, p: nat, acceleration: nat, k: nat, at: nat, step: nat, now: seq<nat>)
    requires 1 <= acceleration && Searching(j, t, p, acceleration, k, at, step, now)
    requires at + step <= LastStart(j) && Hit(j, now, at)
    ensures Search(j, t, p, acceleration) == Match(at, Candidate(j, now, at), Filed(j, now, at))
  {
    assert Try(k);
    assert HitAt(j, t, p, acceleration, k);
  }

  lemma SearchEnds(j: Job, t: seq<nat>, p: nat, acceleration: nat, k: nat, at: nat, step: nat, now: seq<nat>)
    requires 1 <= acceleration && Searching(j, t, p, acceleration, k, at, step, now) && LastStart(j) < at + step
    ensures Search(j, t, p, acceleration) == NoMatch
  {
    assert Try(k);
  }

  lemma SearchGoesOn(j: Job, t: seq<nat>, p: nat, acceleration: nat, k: nat, at: nat, step: nat, now: seq<nat>,
        next: nat)
    requires 1 <= acceleration && Searching(j, t, p, acceleration, k, at, step, now)
    requires next == Stride(acceleration, k + 1) && at + step <= LastStart(j) && !Hit(j, now, at)
    ensures Searching(j, t, p, acceleration, k + 1, at + step, next, Filed(j, now, at))
  {
    assert Try(k);
    assert !HitAt(j, t, p, acceleration, k);
  }

  /** The first of the positions tried that has a match is found, and the search fails only if none has. */
  method FindMatch(j: Job, table: array<nat>, ip0: nat, acceleration: nat) returns (found: bool, ip: nat, m: nat)
    requires j.Valid() && 1 <= acceleration && 1 <= ip0 <= |j.src| - MFLIMIT + 1
    requires Indexed(j, table, ip0)
    modifies table
    ensures found ==>
      && ip0 <= ip && ip + MFLIMIT <= |j.src| && m < ip <= m + DISTANCE_MAX
      && j.src[m..m + 4] == j.src[ip..ip + 4]
      && Indexed(j, table, ip + 1)
    ensures Search(j, old(table[..]), ip0, acceleration) == if found then Match(ip, m, table[..]) else NoMatch
  {
    var mflimitPlusOne := |j.src| - MFLIMIT + 1;
    var forwardIp, step, searchMatchNb := ip0, 1, acceleration * SKIP_TRIGGER;
    var forwardH := j.HashPosition(ip0);
    ghost var t, k: nat := table[..], 0;
    ip, m, found := ip0, 0, false;
    SearchBegins(j, t, ip0, acceleration);
    while true
      invariant ip0 <= forwardIp <= mflimitPlusOne && 1 <= step && searchMatchNb == acceleration * SKIP_TRIGGER + k
      invariant forwardH == j.HashPosition(forwardIp)
      invariant Indexed(j, table, forwardIp)
      invariant Searching(j, t, ip0, acceleration, k, forwardIp, step, table[..])
      decreases |j.src| - forwardIp
    {
      var h := forwardH;
      ghost var stride, now := step, table[..];
      ip := forwardIp;
      forwardIp := forwardIp + step;
      step := searchMatchNb / SKIP_TRIGGER;
      searchMatchNb := searchMatchNb + 1;
      if forwardIp > mflimitPlusOne {
        SearchEnds(j, t, ip0, acceleration, k, ip, stride, now);
        return;
      }
      forwardH := j.HashPosition(forwardIp);
      found, m := TryPosition(j, table, ip, h);
      if found {
        SearchHits(j, t, ip0, acceleration, k, ip, stride, now);
        return;
      }
      SearchGoesOn(j, t, ip0, acceleration, k, ip, stride, now, step);
      k := k + 1;
    }
  }

  /** A match at the position the search starts from is taken. */
  lemma FirstHit(j: Job, t: seq<nat>, p: nat, acceleration: nat)
    requires 1 <= acceleration && Hit(j, t, p) && p < LastStart(j)
    ensures Search(j, t, p, acceleration) == Match(p, Candidate(j, t, p), Filed(j, t, p))
  {
    assert Try(0) && HitAt(j, t, p, acceleration, 0);
    assert Probe(p, acceleration, 1) == p + 1;
  }

  /** By how much a match at `ip` of what stands at `m` can begin earlier. */
  function Back(src: seq<byte>, anchor: nat, ip: nat, m: nat): (n: nat)
    requires m <= ip <= |src|
    ensures n <= m && (anchor <= ip ==> anchor + n <= ip)
  {
    if anchor < ip && 0 < m && src[ip - 1] == src[m - 1] then 1 + Back(src, anchor, ip - 1, m - 1) else 0
  }

  /** Extends a match backwards, not before the literals nor before the source. */
  method CatchUp(src: seq<byte>, anchor: nat, ip0: nat, m0: nat) returns (ip: nat, m: nat)
    requires m0 < ip0 && anchor <= ip0 && ip0 + 4 <= |src| && src[m0..m0 + 4] == src[ip0..ip0 + 4]
    ensures anchor <= ip <= ip0 && ip - m == ip0 - m0
    ensures forall k :: ip <= k < ip0 + 4 ==> src[k] == src[k - (ip0 - m0)]
    ensures ip == anchor || m == 0 || src[ip - 1] != src[m - 1]
    ensures ip == ip0 - Back(src, anchor, ip0, m0)
  {
    ip, m := ip0, m0;
    forall k | ip0 <= k < ip0 + 4 ensures src[k] == src[k - (ip0 - m0)] {
      assert src[k] == src[ip0..ip0 + 4][k - ip0] == src[m0..m0 + 4][k - ip0];
    }
    while ip > anchor && m > 0 && src[ip - 1] == src[m - 1]
      invariant anchor <= ip <= ip0 && ip - m == ip0 - m0
      invariant Back(src, anchor, ip0, m0) == ip0 - ip + Back(src, anchor, ip, m)
      invariant forall k :: ip <= k < ip0 + 4 ==> src[k] == src[k - (ip0 - m0)]
    {
      ip, m := ip - 1, m - 1;
    }
  }

  /** The table when the position two before the end of a match is filed. */
  function FiledBehind(j: Job, t: seq<nat>, ip: nat): seq<nat>
    requires 2 <= ip
  {
    Filed(j, t, ip - 2)
  }

  /** Tries the position right after a match, filing it and the position two before it. */
  method TestNext(j: Job, table: array<nat>, ip: nat) returns (found: bool, m: nat)
    requires j.Valid() && 2 < ip && ip + MFLIMIT <= |j.src| && Indexed(j, table, ip)
    modifies table
    ensures found <==> Hit(j, FiledBehind(j, old(table[..]), ip), ip)
    ensures found ==> m < ip <= m + DISTANCE_MAX && m == Candidate(j, FiledBehind(j, old(table[..]), ip), ip)
    ensures found ==> forall k :: ip <= k < ip + 4 ==> j.src[k] == j.src[k - (ip - m)]
    ensures Indexed(j, table, ip + 1) && table[..] == Filed(j, FiledBehind(j, old(table[..]), ip), ip)
  {
    FileBehind(j, table, ip);
    found, m := TryPosition(j, table, ip, j.HashPosition(ip));
    if found {
      forall k | ip <= k < ip + 4 ensures j.src[k] == j.src[k - (ip - m)] {
        assert j.src[k] == j.src[ip..ip + 4][k - ip] == j.src[m..m + 4][k - ip];
      }
    }
  }

  method FileBehind(j: Job, table: array<nat>, ip: nat)
    requires j.Valid() && 2 < ip && ip + MFLIMIT <= |j.src| && Indexed(j, table, ip)
    modifies table
    ensures Indexed(j, table, ip) && table[..] == FiledBehind(j, old(table[..]), ip)
  {
    var idx := ip - 2;
    table[j.HashPosition(idx)] := if j.tableType == ByU16 then idx % 65536 else idx;
  }
}
