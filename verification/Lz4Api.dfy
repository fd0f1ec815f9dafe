/** The public entry points of src/lz4.c, and what compression and decompression do together. */
module Lz4Api {
  import opened Wrappers
  import opened Lz4Format
  import opened Lz4Decoder
  import opened Lz4Encoder
  import opened Lz4Search
  import opened Lz4Sequences
  import opened Lz4Reference

  const ACCELERATION_MAX := 65537

  function TableSlots(t: TableType): nat { if t == ByU16 then 8192 else 4096 }

  /** Any hash of the bytes at a position that stays within the table. */
  ghost predicate IsHash(hash: (TableType, seq<byte>) -> nat) {
    forall t, s :: hash(t, s) < TableSlots(t)
  }

  // ---------------------------------------------------------------- compression

  function JobFor(src: seq<byte>, t: TableType, hash: (TableType, seq<byte>) -> nat): Job {
    Job(src, t, s => hash(t, s))
  }

  /** LZ4_compress_generic on a fresh context. */
  method CompressGeneric(src: seq<byte>, dst: array<byte>, mode: OutputMode, t: TableType,
      hash: (TableType, seq<byte>) -> nat, acceleration: nat)
    returns (r: nat, consumed: nat)
    requires IsHash(hash) && 1 <= acceleration
    requires mode == NotLimited ==> CompressBound(|src|) <= dst.Length
    modifies dst
    ensures r <= dst.Length && consumed <= |src|
    ensures r > 0 ==> IsBlockOf(dst[..r], src[..consumed])
    ensures r > 0 ==> Greedy(dst[..r], src, consumed, mode == FillOutput)
    ensures r > 0 && mode != FillOutput ==> consumed == |src|
    ensures r > 0 && consumed < |src| ==> dst.Length <= r + 1
    ensures mode == NotLimited ==> r <= CompressBound(|src|)
    ensures |src| <= MAX_INPUT_SIZE && !(t == ByU16 && |src| >= LIMIT_64K) ==>
      AsChosen(Task(JobFor(src, t, hash), mode, acceleration), dst[..r], dst.Length, consumed)
    ensures r == 0 ==>
      || |src| > MAX_INPUT_SIZE
      || mode == LimitedOutput
      || (mode == FillOutput && dst.Length == 0)
      || (t == ByU16 && |src| >= LIMIT_64K)
  {
    if |src| > MAX_INPUT_SIZE { return 0, 0; }
    if |src| == 0 {
      if mode != NotLimited && dst.Length <= 0 { return 0, 0; }
      dst[0] := 0;
      r, consumed := 1, 0;
      EmptyBlock(dst[..1]);
      CutAllowed(dst[..1], [], 0);
      assert src == src[..0];
      EmptyIsChosen(Task(JobFor(src, t, hash), mode, acceleration), dst[..1], dst.Length);
      return;
    }
    var j := Task(JobFor(src, t, hash), mode, acceleration);
    var table := new nat[j.job.Slots()](_ => 0);
    r, consumed := CompressValidated(j, dst, table);
  }

  lemma EmptyBlock(z: seq<byte>)
    requires z == [0]
    ensures IsBlockOf(z, []) && Greedy(z, [], 0, false)
  {
    assert LiteralBytes([], 0) == [0];
    WholeBlock(Last([]), []);
    assert GreedyBlock(z, [], 0, false, Nothing, 0);
  }

  lemma EmptyIsChosen(j: Task, z: seq<byte>, olimit: nat)
    requires 1 <= j.acceleration && j.job.src == [] && z == [0] && 0 < olimit
    ensures AsChosen(j, z, olimit, 0)
  {
    assert j.job.src[0..] == [] && LiteralBytes([], 0) == [0];
  }

  function TableFor(n: nat): TableType { if n < LIMIT_64K then ByU16 else ByU32 }

  function Clamped(acceleration: int): (a: nat)
    ensures 1 <= a <= ACCELERATION_MAX
  {
    if acceleration < 1 then 1 else if acceleration > ACCELERATION_MAX then ACCELERATION_MAX else acceleration
  }

  /** What is chosen for a source whatever the output. */
  ghost function ChosenFor(src: seq<byte>, hash: (TableType, seq<byte>) -> nat, acceleration: int): (g: Choice)
    ensures g.anchor <= |src|
  {
    Chosen(JobFor(src, TableFor(|src|), hash), Clamped(acceleration))
  }

  lemma RunChosenFor(src: seq<byte>, hash: (TableType, seq<byte>) -> nat, acceleration: int)
    requires IsHash(hash) && MFLIMIT < |src| <= MAX_INPUT_SIZE && Uniform(src)
    ensures Size(src, ChosenFor(src, hash, acceleration)) == RunSize(|src|)
  {
    RunChosen(JobFor(src, TableFor(|src|), hash), Clamped(acceleration));
  }

  /** LZ4_compress_fast_extState: the output mode and the table follow from the sizes. */
  method CompressFast(src: seq<byte>, dst: array<byte>, hash: (TableType, seq<byte>) -> nat, acceleration0: int)
    returns (r: nat)
    requires IsHash(hash)
    modifies dst
    ensures r <= dst.Length
    ensures r > 0 ==> IsBlockOf(dst[..r], src) && Greedy(dst[..r], src, |src|, false)
    ensures r > 0 && CompressBound(|src|) <= dst.Length ==> r <= CompressBound(|src|)
    ensures |src| <= MAX_INPUT_SIZE && CompressBound(|src|) <= dst.Length ==> r > 0
    ensures |src| <= MAX_INPUT_SIZE ==>
      var g := ChosenFor(src, hash, acceleration0);
      && r == (if Size(src, g) <= dst.Length then Size(src, g) else 0)
      && (r > 0 ==> AllLegal(g.e) && dst[..r] == BlockBytes(src, g))
  {
    var acceleration: int := if acceleration0 < 1 then 1 else acceleration0;
    if acceleration > ACCELERATION_MAX { acceleration := ACCELERATION_MAX; }
    var mode := if dst.Length >= CompressBound(|src|) then NotLimited else LimitedOutput;
    var t := if |src| < LIMIT_64K then ByU16 else ByU32;
    var consumed;
    r, consumed := CompressGeneric(src, dst, mode, t, hash, acceleration);
    assert src[..|src|] == src;
    assert t == TableFor(|src|) && acceleration == Clamped(acceleration0);
  }

  /** LZ4_compress_destSize: as much of the source as fits `dst`. */
  method CompressDestSize(src: seq<byte>, dst: array<byte>, hash: (TableType, seq<byte>) -> nat)
    returns (r: nat, consumed: nat)
    requires IsHash(hash)
    modifies dst
    ensures r <= dst.Length && consumed <= |src|
    ensures r > 0 ==> IsBlockOf(dst[..r], src[..consumed]) && Greedy(dst[..r], src, consumed, true)
    ensures r > 0 <==> |src| <= MAX_INPUT_SIZE && dst.Length > 0
    ensures r > 0 && consumed < |src| ==> dst.Length <= r + 1
    ensures |src| <= MAX_INPUT_SIZE ==>
      var g := ChosenFor(src, hash, 1);
      Size(src, g) + 3 <= dst.Length ==>
        r == Size(src, g) && consumed == |src| && AllLegal(g.e) && dst[..r] == BlockBytes(src, g)
    ensures r > 0 && CompressBound(|src|) <= dst.Length ==> consumed == |src|
  {
    if dst.Length >= CompressBound(|src|) {
      r := CompressFast(src, dst, hash, 1);
      consumed := |src|;
      assert src[..|src|] == src;
      if r > 0 { CutAllowed(dst[..r], src, consumed); }
    } else {
      var t := if |src| < LIMIT_64K then ByU16 else ByU32;
      r, consumed := CompressGeneric(src, dst, FillOutput, t, hash, 1);
    }
  }

  /** Whatever is compressed into a smaller buffer is the same, and there is no result exactly if it does not fit. */
  method SmallerBuffer(src: seq<byte>, hash: (TableType, seq<byte>) -> nat, acceleration: int, capacity: nat)
    returns (whole: seq<byte>, r: nat, part: seq<byte>)
    requires IsHash(hash) && |src| <= MAX_INPUT_SIZE
    ensures IsBlockOf(whole, src) && 0 < |whole| <= CompressBound(|src|)
    ensures r == if |whole| <= capacity then |whole| else 0
    ensures part == whole[..r]
  {
    var dst := new byte[CompressBound(|src|)];
    var n := CompressFast(src, dst, hash, acceleration);
    whole := dst[..n];
    var small := new byte[capacity];
    r := CompressFast(src, small, hash, acceleration);
    part := small[..r];
  }

  /** A run of one byte is compressed to a literal, a match and the last literals, whatever the hash, whenever that
      fits. */
  method CompressRun(src: seq<byte>, dst: array<byte>, hash: (TableType, seq<byte>) -> nat, acceleration: int)
    returns (r: nat)
    requires IsHash(hash) && MFLIMIT < |src| <= MAX_INPUT_SIZE && Uniform(src)
    modifies dst
    ensures r == if RunSize(|src|) <= dst.Length then RunSize(|src|) else 0
    ensures r <= dst.Length && (r > 0 ==> IsBlockOf(dst[..r], src))
  {
    RunChosenFor(src, hash, acceleration);
    r := CompressFast(src, dst, hash, acceleration);
  }

  /** And, with three bytes to spare, as part of the output that is to be filled. */
  method CompressRunDestSize(src: seq<byte>, dst: array<byte>, hash: (TableType, seq<byte>) -> nat)
    returns (r: nat, consumed: nat)
    requires IsHash(hash) && MFLIMIT < |src| <= MAX_INPUT_SIZE && Uniform(src) && RunSize(|src|) + 3 <= dst.Length
    modifies dst
    ensures r == RunSize(|src|) && consumed == |src| && r <= dst.Length && IsBlockOf(dst[..r], src)
  {
    RunChosenFor(src, hash, 1);
    r, consumed := CompressDestSize(src, dst, hash);
    assert src[..|src|] == src;
  }

  // ---------------------------------------------------------------- decompression

  method DecompressSafe(src: seq<byte>, dst: array<byte>) returns (r: int)
    modifies dst
    ensures -|src| - 1 <= r <= dst.Length
    ensures r >= 0 ==> Decode(src, [], []) == Some(dst[..r])
    ensures dst.Length > 0 ==> forall total: nat :: Conforming(Parse(src, 0), 0, total) && total <= dst.Length ==>
      r == total
    ensures dst.Length == 0 ==> (r == 0 <==> src == [0])
  {
    assert [] + dst[0..0] == [];
    r := DecompressGeneric(Env(src, 0, [], NoDict), dst, 0);
    if r >= 0 { assert [] + dst[0..r] == dst[..r]; }
  }

  /** LZ4_decompress_safe_usingDict.  Whichever way the dictionary is reached, the result is the
      meaning of the block behind the dictionary.  `prefix`: the dictionary ends where the output
      starts. */
  method DecompressSafeUsingDict(src: seq<byte>, dst: array<byte>, start: nat, dict: seq<byte>, prefix: bool)
    returns (r: int)
    requires start <= dst.Length
    requires prefix ==> |dict| <= start && dst[start - |dict|..start] == dict
    modifies dst
    ensures -|src| - 1 <= r <= dst.Length - start
    ensures forall i :: 0 <= i < start ==> dst[i] == old(dst[i])
    ensures r >= 0 ==> Decode(src, dict, []) == Some(dict + dst[start..start + r])
    ensures start < dst.Length ==> forall total: nat ::
      Conforming(Parse(src, 0), |dict|, total) && total - |dict| <= dst.Length - start ==> r == total - |dict|
    ensures start == dst.Length ==> (r == 0 <==> src == [0])
  {
    var e := DictionaryEnv(src, start, dict, prefix);
    ghost var history := e.dict + dst[e.low..start];
    assert |history| <= |dict| && dict[|dict| - |history|..] == history;
    r := DecompressBehind(e, dst, start, history, |dict|);
    if r >= 0 {
      WithLongerDictionary(src, dict, history, dst[start..start + r]);
    }
  }

  /** The choice between the three modes. */
  function DictionaryEnv(src: seq<byte>, start: nat, dict: seq<byte>, prefix: bool): (e: Env)
    requires prefix ==> |dict| <= start
    ensures e.Valid(start) && e.src == src
  {
    if |dict| == 0 then Env(src, start, [], NoDict)
    else if prefix then
      if |dict| >= KB64 - 1 then
        // The 65536th byte back is out of the reach of a 16-bit offset.
        Env(src, start - (KB64 - 1), [], WithPrefix64k)
      else Env(src, start - |dict|, [], NoDict)
    else Env(src, start, dict, UsingExtDict)
  }

  /** Decodes behind a history that is all, or as much as offsets can reach, of `n` bytes. */
  method DecompressBehind(e: Env, dst: array<byte>, start: nat, ghost history: seq<byte>, ghost n: nat) returns (r: int)
    requires start <= dst.Length && e.Valid(start) && history == e.dict + dst[e.low..start]
    requires |history| <= n && (|history| == n || DISTANCE_MAX <= |history|)
    modifies dst
    ensures -|e.src| - 1 <= r <= dst.Length - start
    ensures forall i :: 0 <= i < start ==> dst[i] == old(dst[i])
    ensures r >= 0 ==> Decode(e.src, history, []) == Some(history + dst[start..start + r])
    ensures start < dst.Length ==> forall total: nat ::
      Conforming(Parse(e.src, 0), n, total) && total - n <= dst.Length - start ==> r == total - n
    ensures start == dst.Length ==> (r == 0 <==> e.src == [0])
  {
    r := DecompressGeneric(e, dst, start);
    if r >= 0 { assert e.dict + dst[e.low..start + r] == history + dst[start..start + r]; }
    forall total: nat | start < dst.Length && Conforming(Parse(e.src, 0), n, total) && total - n <= dst.Length - start
      ensures r == total - n
    {
      ReachedHistory(e.src, n, |history|, total);
    }
  }

  /** What conforms behind a dictionary conforms behind as much of its end as offsets can reach. */
  lemma ReachedHistory(src: seq<byte>, n: nat, reached: nat, total: nat)
    requires Conforming(Parse(src, 0), n, total) && reached <= n && (reached == n || DISTANCE_MAX <= reached)
    ensures n - reached <= total && Conforming(Parse(src, 0), reached, total - (n - reached))
  {
    if reached < n {
      ParsedWithinReach(src, 0);
      ShorterHistory(Parse(src, 0).value, n, total, n - reached);
    }
  }

  /** Decoding behind the end of a dictionary is decoding behind all of it. */
  lemma WithLongerDictionary(src: seq<byte>, dict: seq<byte>, history: seq<byte>, out: seq<byte>)
    requires |history| <= |dict| && dict[|dict| - |history|..] == history
    requires Decode(src, history, []) == Some(history + out)
    ensures Decode(src, dict, []) == Some(dict + out)
  {
    var x := dict[..|dict| - |history|];
    assert dict == x + history;
    MoreHistory(Parse(src, 0).value, x, history);
    assert x + (history + out) == dict + out;
  }

  /** A dictionary kept elsewhere and the same dictionary right before the output give the same bytes. */
  method DictionaryOrPrefix(src: seq<byte>, dict: seq<byte>, capacity: nat)
    returns (a: Option<seq<byte>>, b: Option<seq<byte>>)
    ensures a.Some? && b.Some? ==> a == b
    ensures capacity > 0 ==> forall total: nat ::
      Conforming(Parse(src, 0), |dict|, total) && total - |dict| <= capacity ==>
        a.Some? && b.Some? && |a.value| == total - |dict|
  {
    var apart := new byte[capacity];
    var r := DecompressSafeUsingDict(src, apart, 0, dict, false);
    a := if r >= 0 then Some(apart[..r]) else None;
    var joined := new byte[|dict| + capacity](i requires 0 <= i => if i < |dict| then dict[i] else 0);
    assert joined[|dict| - |dict|..|dict|] == dict;
    var q := DecompressSafeUsingDict(src, joined, |dict|, dict, true);
    b := if q >= 0 then Some(joined[|dict|..|dict| + q]) else None;
    if r >= 0 && q >= 0 {
      var u, v := apart[..r], joined[|dict|..|dict| + q];
      assert apart[0..0 + r] == u;
      assert u == (dict + u)[|dict|..] && v == (dict + v)[|dict|..];
    }
  }

  // ---------------------------------------------------------------- round trips

  /** Whatever was compressed comes back, from the safe decoder with room to spare and from the
      reference decoder with the exact size. */
  method RoundTrip(src: seq<byte>, hash: (TableType, seq<byte>) -> nat, acceleration: int, spare: nat)
    returns (safe: seq<byte>, reference: seq<byte>)
    requires IsHash(hash) && |src| <= MAX_INPUT_SIZE
    ensures safe == src && reference == src
  {
    var dst := new byte[CompressBound(|src|)];
    var r := CompressFast(src, dst, hash, acceleration);
    safe, reference := DecodeBoth(dst[..r], src, spare);
  }

  /** The same for as much of the source as fits a target of any size. */
  method DestSizeRoundTrip(src: seq<byte>, hash: (TableType, seq<byte>) -> nat, target: nat, spare: nat)
    returns (r: nat, consumed: nat, safe: seq<byte>, reference: seq<byte>)
    requires IsHash(hash) && |src| <= MAX_INPUT_SIZE && target > 0
    ensures 0 < r <= target && consumed <= |src|
    ensures safe == src[..consumed] && reference == src[..consumed]
  {
    var dst := new byte[target];
    r, consumed := CompressDestSize(src, dst, hash);
    safe, reference := DecodeBoth(dst[..r], src[..consumed], spare);
  }

  method DecodeBoth(z: seq<byte>, text: seq<byte>, spare: nat) returns (safe: seq<byte>, reference: seq<byte>)
    requires IsBlockOf(z, text)
    ensures safe == text && reference == text
  {
    var a := new byte[|text| + spare];
    var n := DecompressSafe(z, a);
    assert n == |text|;
    safe := a[..n];
    var b := new byte[|text|];
    ghost var stale := [] + b[0..];
    ReferenceAcceptsConforming(z, 0, [] + b[0..0], stale);
    NoZeroIsClean(Parse(z, 0).value, 0, stale);
    StaleShows(Parse(z, 0).value, [], stale);
    assert [] + b[0..0] == [] && |stale| == |text|;
    var m := DecompressUnsafe(z, b, 0, 0, []);
    reference := b[..];
    assert [] + b[0..] == b[..];
  }

  /** Whenever the reference decoder accepts an input as a whole, the safe decoder accepts it too for
      any capacity that is enough, with the same bytes exactly when no match with offset 0 lies over a
      byte of the reference decoder's buffer that is not zero. */
  method SafeFollowsReference(src: seq<byte>, initial: seq<byte>, capacity: nat)
    returns (safe: seq<byte>, reference: seq<byte>)
    requires 0 < capacity && |initial| <= capacity
    requires var o := RefDecode(src, 0, [], initial); o.Decoded? && o.consumed == |src|
    ensures |safe| == |reference| == |initial|
    ensures Parse(src, 0).Some? && (safe == reference <==> CleanBeneath(Parse(src, 0).value, 0, initial))
  {
    AcceptedByReference(src, initial);
    safe := RunSafe(src, capacity, |initial|);
    reference := RunReference(src, initial);
  }

  lemma AcceptedByReference(src: seq<byte>, initial: seq<byte>)
    requires var o := RefDecode(src, 0, [], initial); o.Decoded? && o.consumed == |src|
    ensures Conforming(Parse(src, 0), 0, |initial|)
    ensures |RefDecode(src, 0, [], initial).out| == |initial|
    ensures Meaning(Parse(src, 0).value, [], []) == Some(RefDecode(src, 0, [], initial).out)
      <==> CleanBeneath(Parse(src, 0).value, 0, initial)
  {
    ReferenceAcceptsConforming(src, 0, [], initial);
    var b := Parse(src, 0).value;
    ConformingHasMeaning(b, [], |initial|, initial);
    StaleShows(b, [], initial);
  }

  /** The safe decoder on an input that conforms for an output of `total` bytes. */
  method RunSafe(src: seq<byte>, capacity: nat, ghost total: nat) returns (safe: seq<byte>)
    requires 0 < capacity && total <= capacity && Conforming(Parse(src, 0), 0, total)
    ensures |safe| == total && Meaning(Parse(src, 0).value, [], []) == Some(safe)
  {
    var a := new byte[capacity];
    var r := DecompressSafe(src, a);
    safe := a[..r];
  }

  /** The reference decoder on a buffer that holds `initial`. */
  method RunReference(src: seq<byte>, initial: seq<byte>) returns (reference: seq<byte>)
    requires RefDecode(src, 0, [], initial).Decoded?
    ensures reference == RefDecode(src, 0, [], initial).out
  {
    var b := new byte[|initial|](i requires 0 <= i < |initial| => initial[i]);
    assert [] + b[0..] == initial && [] + b[0..0] == [];
    var m := DecompressUnsafe(src, b, 0, 0, []);
    reference := b[..];
    assert [] + b[0..] == b[..];
  }

  /** The two decoders do differ: twelve bytes, the first of them copied from offset 0. */
  method ZeroOffsetDiffers(literals: seq<byte>, initial: seq<byte>) returns (safe: seq<byte>, reference: seq<byte>)
    requires |literals| == 8 && |initial| == 12 && initial[0] != 0
    ensures safe != reference
  {
    var z := [0, 0, 0, 128] + literals;
    ZeroOffsetBytes(z, literals);
    ZeroOffsetShows(literals, initial);
    ReferenceAcceptsConforming(z, 0, [], initial);
    safe, reference := SafeFollowsReference(z, initial, 12);
  }
}
