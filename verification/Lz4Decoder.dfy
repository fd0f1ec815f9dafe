/** LZ4_decompress_generic for whole blocks: the fast loop, the safe loop and the jumps between them.

    The output buffer is an array whose end is `oend`; the input is a value whose end is `iend`.  All
    reads and writes, wild-copy overshoot included, are checked against both ends.  The three labels
    the loops jump between are the constructors of `State`. */
module Lz4Decoder {
  import opened Wrappers
  import opened Lz4Format
  import opened Lz4Memory

  const FASTLOOP_SAFE_DISTANCE := 64
  const MATCH_SAFEGUARD_DISTANCE := 12
  const KB64 := 65536

  datatype DictMode = NoDict | WithPrefix64k | UsingExtDict

  /** What one call of the decoder never changes: the input, where the prefix starts in the output
      buffer, and the external dictionary. */
  datatype Env = Env(src: seq<byte>, low: nat, dict: seq<byte>, mode: DictMode)
  {
    predicate Valid(op: nat) {
      && low <= op
      && (mode == UsingExtDict || dict == [])
      && (mode == WithPrefix64k ==> low + KB64 - 1 <= op)  // no offset reaches further back
    }

    predicate CheckOffset() {
      |dict| < KB64
    }
  }

  /** The points of the code between which control moves. */
  datatype State =
    | AtToken(ip: nat, op: nat)
    | AtLiterals(ip: nat, op: nat, nibble: nat, length: nat)
    | AtOffset(ip: nat, op: nat, nibble: nat)
    | AtLength(ip: nat, op: nat, offset: nat, nibble: nat)
    | AtCopy(ip: nat, op: nat, offset: nat, length: nat)
    | AtEnd(ip: nat, op: nat)
    | Failed(ip: nat)

  // ---------------------------------------------------------------- what a state promises

  /** What a whole run is to produce: the history at the end, and whether the input conforms to the
      format for an output of `total` bytes that fits the buffer. */
  datatype Target = Target(goal: Option<seq<byte>>, total: nat, conforming: bool)

  /** Holds of everything; a proof mentions it to look into Faithful, so that the proofs about control flow
      do not unfold the grammar. */
  predicate Open(t: Target) { true }

  /** What is left of the block leads from the history `out` to the goal. */
  ghost predicate Faithful(b: Option<Block>, out: seq<byte>, t: Target) {
    forall u {:trigger Open(u)} :: Open(u) && u == t ==>
      && u.goal == (if b.None? then None else Meaning(b.value, out, []))
      && (u.conforming ==> Conforming(b, |out|, u.total))
  }

  /** The rest of the block once offset and match length are known. */
  function CopyThen(src: seq<byte>, ip: nat, offset: nat, length: nat): Option<Block> {
    match Parse(src, ip)
    case None => None
    case Some(rest) => Some(Copy([], offset, length, rest))
  }

  function LengthThen(src: seq<byte>, ip: nat, offset: nat, nibble: nat): Option<Block> {
    match ReadLength(src, ip, nibble)
    case None => None
    case Some(ml) => CopyThen(src, ml.next, offset, ml.value + MINMATCH)
  }

  /** The rest of the block as seen from a control point. */
  function Remaining(src: seq<byte>, s: State): Option<Block> {
    match s
    case AtToken(ip, op) => Parse(src, ip)
    case AtLiterals(ip, op, nibble, length) => ParseLiterals(src, ip, nibble, length)
    case AtOffset(ip, op, nibble) => ParseMatch(src, ip, nibble)
    case AtLength(ip, op, offset, nibble) => LengthThen(src, ip, offset, nibble)
    case AtCopy(ip, op, offset, length) => CopyThen(src, ip, offset, length)
    case AtEnd(ip, op) => Some(Last([]))
    case Failed(ip) => None
  }

  /** The room each control point relies on, in the input and in the output. */
  predicate Roomy(s: State, iend: nat, oend: nat) {
    match s
    case AtToken(ip, op) => ip < iend && op <= oend
    case AtLiterals(ip, op, nibble, length) => ip <= iend && op <= oend && nibble <= 15
    case AtOffset(ip, op, nibble) => ip + 3 <= iend && op + MATCH_SAFEGUARD_DISTANCE <= oend && nibble <= 15
    case AtLength(ip, op, offset, nibble) =>
      ip < iend && op + MATCH_SAFEGUARD_DISTANCE <= oend && offset <= DISTANCE_MAX && nibble <= 15
    case AtCopy(ip, op, offset, length) =>
      ip < iend && op + MATCH_SAFEGUARD_DISTANCE <= oend && offset <= DISTANCE_MAX && MINMATCH <= length
    case AtEnd(ip, op) => ip <= iend && op <= oend
    case Failed(ip) => ip <= iend
  }

  ghost predicate Promises(e: Env, s: State, dst: array<byte>, t: Target)
    reads dst
  {
    && Roomy(s, |e.src|, dst.Length)
    && (t.conforming ==> t.total <= |e.dict| + dst.Length - e.low)
    && (if s.Failed? then !t.conforming
        else e.Valid(s.op) && Faithful(Remaining(e.src, s), e.dict + dst[e.low..s.op], t))
  }

  // ---------------------------------------------------------------- lemmas about the steps

  /** Behind every match of a conforming block there are a token and five literals. */
  lemma {:induction false} SixBytesLeft(src: seq<byte>, ip: nat, n: nat, total: nat)
    requires Conforming(Parse(src, ip), n, total) && n + LASTLITERALS <= total
    ensures ip + 6 <= |src|
    decreases |src| - ip
  {
    var ll := ReadLength(src, ip + 1, src[ip] / 16).value;
    assert Parse(src, ip) == ParseLiterals(src, ll.next, src[ip] % 16, ll.value);
    if ll.next + ll.value < |src| {
      var i := ll.next + ll.value;
      assert ParseMatch(src, i, src[ip] % 16).Some?;
      var ml := ReadLength(src, i + 2, src[ip] % 16).value;
      SixBytesLeft(src, ml.next, n + ll.value + ml.value + MINMATCH, total);
    }
  }

  lemma LiteralStep(src: seq<byte>, ip: nat, nibble: nat, length: nat, out: seq<byte>, t: Target)
    requires Faithful(ParseLiterals(src, ip, nibble, length), out, t)
    ensures ip + length < |src| ==> Faithful(ParseMatch(src, ip + length, nibble), out + src[ip..ip + length], t)
    ensures ip + length == |src| ==> t.goal == Some(out + src[ip..]) && (t.conforming ==> |out| + length == t.total)
    ensures ip + length > |src| ==> !t.conforming
    ensures ip + length < |src| && t.conforming ==>
      ip + length + 8 <= |src| && |out| + length + MFLIMIT <= t.total
  {
    assert Open(t);
    if ip + length < |src| {
      var p := ParseMatch(src, ip + length, nibble);
      assert (out + src[ip..ip + length]) + [] == out + src[ip..ip + length];
      if p.Some? {
        assert ParseLiterals(src, ip, nibble, length)
            == Some(Copy(src[ip..ip + length], p.value.offset, p.value.matchLength, p.value.rest));
      }
      if t.conforming { MatchStep(src, ip + length, nibble, |out| + length, t.total); }
    } else if ip + length == |src| {
      assert src[ip..ip + length] == src[ip..];
    }
  }

  /** Behind the match of a conforming block there is another one. */
  lemma MatchStep(src: seq<byte>, ip: nat, nibble: nat, n: nat, total: nat)
    requires Conforming(ParseMatch(src, ip, nibble), n, total)
    ensures ip + 8 <= |src| && n + MFLIMIT <= total
  {
    var b := ParseMatch(src, ip, nibble).value;
    var ml := ReadLength(src, ip + 2, nibble).value;
    assert Parse(src, ml.next) == Some(b.rest) && b.matchLength == ml.value + MINMATCH;
    SixBytesLeft(src, ml.next, n + b.matchLength, total);
  }

  /** A literal length that is cut short, or leaves too little room behind it, does not conform. */
  lemma LiteralLength(src: seq<byte>, ip: nat, out: seq<byte>, t: Target)
    requires ip < |src| && Faithful(Parse(src, ip), out, t)
    ensures t.conforming ==> ReadLength(src, ip + 1, src[ip] / 16).Some?
    ensures t.conforming ==> var ll := ReadLength(src, ip + 1, src[ip] / 16).value; ll.next + ll.value <= |src|
    ensures ReadLength(src, ip + 1, src[ip] / 16).Some? ==>
      var ll := ReadLength(src, ip + 1, src[ip] / 16).value;
      Faithful(ParseLiterals(src, ll.next, src[ip] % 16, ll.value), out, t)
  {
    assert Open(t);
    var f := ReadLength(src, ip + 1, src[ip] / 16);
    if f.Some? {
      assert Parse(src, ip) == ParseLiterals(src, f.value.next, src[ip] % 16, f.value.value);
      TooFewLiterals(src, f.value.next, src[ip] % 16, f.value.value);
    } else {
      assert Parse(src, ip) == None;
    }
  }

  lemma TooFewLiterals(src: seq<byte>, ip: nat, nibble: nat, length: nat)
    ensures ip + length > |src| ==> ParseLiterals(src, ip, nibble, length) == None
  {
  }

  lemma MatchLength(src: seq<byte>, ip: nat, offset: nat, nibble: nat, out: seq<byte>, t: Target)
    requires Faithful(LengthThen(src, ip, offset, nibble), out, t)
    ensures t.conforming ==> ReadLength(src, ip, nibble).Some? && ReadLength(src, ip, nibble).value.next + 6 <= |src|
  {
    assert Open(t);
    if t.conforming {
      var ml := ReadLength(src, ip, nibble).value;
      SixBytesLeft(src, ml.next, |out| + ml.value + MINMATCH, t.total);
    }
  }

  lemma CopyStep(src: seq<byte>, ip: nat, offset: nat, length: nat, out: seq<byte>, s: seq<byte>, t: Target)
    requires Faithful(CopyThen(src, ip, offset, length), out, t)
    requires Continues(out, offset, s, []) && |s| == |out| + length
    ensures Faithful(Parse(src, ip), s, t)
  {
    ExpandUnique(out, offset, s, []);
    assert out + [] == out;
  }

  lemma CopyBounds(src: seq<byte>, ip: nat, offset: nat, length: nat, out: seq<byte>, t: Target)
    requires Faithful(CopyThen(src, ip, offset, length), out, t) && t.conforming
    ensures offset <= |out| && |out| + length + LASTLITERALS <= t.total
  {
    assert Open(t);
  }

  // ---------------------------------------------------------------- reading a length

  /** Reads the bytes that extend a saturated nibble; None stands for rvl_error.  Every byte must
      leave the position at or before `ilimit`. */
  method ReadVariableLength(src: seq<byte>, ip0: nat, ilimit: int, initialCheck: bool) returns (r: Option<nat>, ip: nat)
    requires ilimit < |src| && (initialCheck || ip0 < |src|) && ip0 <= |src|
    ensures ip0 <= ip <= |src|
    ensures var f := ReadExtension(src, ip0, 0);
      if f.Some? && f.value.next <= ilimit then r == Some(f.value.value) && ip == f.value.next else r == None
  {
    var length: nat := 0;
    ip := ip0;
    if initialCheck && ip >= ilimit { return None, ip; }
    while true
      invariant ip0 <= ip < |src|
      invariant ReadExtension(src, ip, length) == ReadExtension(src, ip0, 0)
      decreases |src| - ip
    {
      var s := src[ip];
      ip := ip + 1;
      length := length + s as int;
      if ip > ilimit { return None, ip; }
      if s != 255 { return Some(length), ip; }
    }
  }

  // ---------------------------------------------------------------- match copies

  /** A repeating stretch of the buffer continues the history. */
  lemma RepeatsContinues(dict: seq<byte>, s: seq<byte>, low: nat, op: nat, end: nat, offset: nat)
    requires low <= op <= end <= |s| && offset <= op - low
    requires Repeats(s, op, end, offset)
    ensures Continues(dict + s[low..op], offset, dict + s[low..end], [])
  {
    var out, all := dict + s[low..op], dict + s[low..end];
    assert all[..|out|] == out;
    forall k | |out| <= k < |all| ensures all[k] == if offset == 0 then Stale([], k) else all[k - offset] {
      assert all[k] == s[low + (k - |dict|)];
    }
  }

  /** The match starts in the external dictionary and may run on into the prefix. */
  method ExtDictCopy(e: Env, dst: array<byte>, op0: nat, offset: nat, length: nat)
    requires e.low <= op0 && op0 + length <= dst.Length
    requires op0 - offset < e.low && e.low <= op0 - offset + |e.dict|
    modifies dst
    ensures forall i :: 0 <= i < op0 ==> dst[i] == old(dst[i])
    ensures Continues(e.dict + dst[e.low..op0], offset, e.dict + dst[e.low..op0 + length], [])
  {
    var match0 := op0 - offset;
    var copySize := e.low - match0;
    if length <= copySize {
      CopyIn(dst, op0, e.dict, |e.dict| - copySize, length);
    } else {
      CopyIn(dst, op0, e.dict, |e.dict| - copySize, copySize);
      ghost var mid := dst[..];
      PrefixCopy(dst, e.low, op0 + copySize, op0 + length);
      assert forall i :: 0 <= i < op0 + copySize ==> dst[i] == mid[i];
    }
    SplitContinues(e.dict, dst[..], e.low, op0, op0 + length, offset);
  }

  /** The part of a match that runs on into the prefix; it may overlap its own output. */
  method PrefixCopy(dst: array<byte>, low: nat, op0: nat, end: nat)
    requires low <= op0 <= end <= dst.Length
    modifies dst
    ensures forall i :: 0 <= i < op0 ==> dst[i] == old(dst[i])
    ensures forall i :: op0 <= i < end ==> dst[i] == dst[i - (op0 - low)]
  {
    var restSize := end - op0;
    if restSize > op0 - low {
      var op, copyFrom := op0, low;
      while op < end
        invariant op0 <= op <= end && op - copyFrom == op0 - low
        invariant forall i :: 0 <= i < op0 ==> dst[i] == old(dst[i])
        invariant forall i :: op0 <= i < op ==> dst[i] == dst[i - (op0 - low)]
      {
        dst[op] := dst[copyFrom];
        op, copyFrom := op + 1, copyFrom + 1;
      }
    } else {
      Memcpy(dst, op0, low, restSize);
    }
  }

  lemma SplitContinues(dict: seq<byte>, s: seq<byte>, low: nat, op: nat, end: nat, offset: nat)
    requires low <= op <= end <= |s| && op - offset < low <= op - offset + |dict|
    requires var copySize := low - (op - offset);
      && (forall i :: op <= i < end && i < op + copySize ==> s[i] == dict[i - op + (|dict| - copySize)])
      && (forall i :: op + copySize <= i < end ==> s[i] == s[i - offset])
    ensures Continues(dict + s[low..op], offset, dict + s[low..end], [])
  {
    var copySize := low - (op - offset);
    var out, all := dict + s[low..op], dict + s[low..end];
    assert all[..|out|] == out;
    forall k | |out| <= k < |all| ensures all[k] == all[k - offset] {
      var i := low + (k - |dict|);
      assert all[k] == s[i];
      if i < op + copySize { assert all[k - offset] == dict[k - offset]; }
      else { assert all[k - offset] == s[i - offset]; }
    }
  }

  /** The 18-byte copy both loops make for a short match at least a word away. */
  method Copy18(dst: array<byte>, op: nat, offset: nat, length: nat)
    requires 8 <= offset <= op && op + 18 <= dst.Length && length <= 18
    modifies dst
    ensures forall i :: 0 <= i < op ==> dst[i] == old(dst[i])
    ensures Repeats(dst[..], op, op + length, offset)
  {
    var match0 := op - offset;
    Memcpy(dst, op, match0, 8);
    Memcpy(dst, op + 8, match0 + 8, 8);
    Memcpy(dst, op + 16, match0 + 16, 2);
  }

  /** The match copy of the safe loop, within the block, once it is known to end before the last
      literals. */
  method SafeCopyWithin(dst: array<byte>, op0: nat, offset: nat, length: nat)
    requires offset <= op0 && op0 + MATCH_SAFEGUARD_DISTANCE <= dst.Length && MINMATCH <= length
    requires op0 + length + LASTLITERALS <= dst.Length
    modifies dst
    ensures forall i :: 0 <= i < op0 ==> dst[i] == old(dst[i])
    ensures Repeats(dst[..], op0, op0 + length, offset)
  {
    var oend := dst.Length;
    var cpy := op0 + length;
    var from;
    if offset < 8 {
      from := OverlapStart(dst, op0, offset);
    } else {
      Memcpy(dst, op0, op0 - offset, 8);
      from := op0 - offset + 8;
    }
    ghost var word := dst[..];
    SafeRest(dst, op0 + 8, from, cpy);
    assert forall i :: 0 <= i < op0 + 8 ==> dst[i] == word[i];
    if op0 + 8 < cpy && offset < 8 {
      RestRepeats(dst[..], op0, cpy, offset, from);
    }
  }

  /** What follows the first word of a match: word copies, cautious ones near the end of the buffer. */
  method SafeRest(dst: array<byte>, op: nat, from: nat, cpy: nat)
    requires from + 8 <= op && op + 4 <= dst.Length && op <= cpy + 4 && cpy + LASTLITERALS <= dst.Length
    modifies dst
    ensures forall i :: 0 <= i < op ==> dst[i] == old(dst[i])
    ensures forall i :: op <= i < cpy ==> dst[i] == dst[i - (op - from)]
  {
    if cpy > dst.Length - MATCH_SAFEGUARD_DISTANCE {
      SafeTail(dst, op, from, cpy);
    } else {
      Memcpy(dst, op, from, 8);
      ghost var word := dst[..];
      if cpy - (op - 8) > 16 {
        WildCopy8(dst, op + 8, from + 8, cpy);
        assert forall i :: 0 <= i < op + 8 ==> dst[i] == word[i];
      }
    }
  }

  /** The end of a match close to the end of the buffer: words up to `oend - 7`, then bytes. */
  method SafeTail(dst: array<byte>, op0: nat, from0: nat, cpy: nat)
    requires from0 + 8 <= op0 <= dst.Length - 4 && cpy + LASTLITERALS <= dst.Length
    modifies dst
    ensures forall i :: 0 <= i < op0 ==> dst[i] == old(dst[i])
    ensures forall i :: op0 <= i < cpy ==> dst[i] == dst[i - (op0 - from0)]
  {
    var op, from := op0, from0;
    var oCopyLimit := dst.Length - 7;
    if op < oCopyLimit {
      WildCopy8(dst, op, from, oCopyLimit);
      from := from + (oCopyLimit - op);
      op := oCopyLimit;
    }
    while op < cpy
      invariant op0 <= op && op - from == op0 - from0 && (op <= cpy || op == oCopyLimit || op == op0)
      invariant forall i :: 0 <= i < op0 ==> dst[i] == old(dst[i])
      invariant forall i :: op0 <= i < op ==> dst[i] == dst[i - (op0 - from0)]
    {
      dst[op] := dst[from];
      op, from := op + 1, from + 1;
    }
  }

  // ---------------------------------------------------------------- the fast loop

  /** One step of control: `s1` keeps the promise of `s0`, and output before `s0.op` stays. */
  twostate predicate Follows(e: Env, s0: State, s1: State, dst: array<byte>, t: Target)
    requires !s0.Failed? && s0.op <= dst.Length
    reads dst
  {
    && Promises(e, s1, dst, t)
    && (!s1.Failed? ==> s0.op <= s1.op)
    && (forall i :: 0 <= i < s0.op ==> dst[i] == old(dst[i]))
  }

  /** Token and literal length; both loops read them alike. */
  method LiteralField(e: Env, dst: array<byte>, s0: State, ghost t: Target) returns (s: State)
    requires s0.AtToken? && Promises(e, s0, dst, t)
    ensures Promises(e, s, dst, t)
    ensures s.Failed? || (s.AtLiterals? && s.op == s0.op && s0.ip < s.ip)
    ensures s.AtLiterals? && s.length < RUN_MASK ==> s.ip == s0.ip + 1
  {
    var ip := s0.ip;
    LiteralLength(e.src, ip, e.dict + dst[e.low..s0.op], t);
    var token: nat := e.src[ip];
    ip := ip + 1;
    var length := token / 16;
    if length == RUN_MASK {
      ExtensionShift(e.src, ip, 0, RUN_MASK);
      var addl;
      addl, ip := ReadVariableLength(e.src, ip, |e.src| - RUN_MASK, true);
      if addl.None? { return Failed(ip); }
      length := length + addl.value;
    }
    s := AtLiterals(ip, s0.op, token % 16, length);
  }

  /** Literals that now stand in the buffer lead on to the offset. */
  lemma LiteralsCopied(e: Env, before: seq<byte>, dst: array<byte>, s0: State, t: Target)
    requires s0.AtLiterals? && e.Valid(s0.op) && s0.op <= |before| == dst.Length && s0.nibble <= 15
    requires Faithful(Remaining(e.src, s0), e.dict + before[e.low..s0.op], t)
    requires t.conforming ==> t.total <= |e.dict| + dst.Length - e.low
    requires s0.op + s0.length + MATCH_SAFEGUARD_DISTANCE <= dst.Length && s0.ip + s0.length + 3 <= |e.src|
    requires forall i :: 0 <= i < s0.op ==> dst[i] == before[i]
    requires forall i :: s0.op <= i < s0.op + s0.length ==> dst[i] == e.src[i - s0.op + s0.ip]
    ensures Promises(e, AtOffset(s0.ip + s0.length, s0.op + s0.length, s0.nibble), dst, t)
  {
    var out := e.dict + before[e.low..s0.op];
    LiteralStep(e.src, s0.ip, s0.nibble, s0.length, out, t);
    assert e.dict + dst[e.low..s0.op + s0.length] == out + e.src[s0.ip..s0.ip + s0.length];
  }

  /** The last literals end the block. */
  lemma LastCopied(e: Env, before: seq<byte>, dst: array<byte>, s0: State, t: Target)
    requires s0.AtLiterals? && e.Valid(s0.op) && s0.op <= |before| == dst.Length
    requires Faithful(Remaining(e.src, s0), e.dict + before[e.low..s0.op], t)
    requires t.conforming ==> t.total <= |e.dict| + dst.Length - e.low
    requires s0.op + s0.length <= dst.Length && s0.ip + s0.length == |e.src|
    requires forall i :: 0 <= i < s0.op ==> dst[i] == before[i]
    requires forall i :: s0.op <= i < s0.op + s0.length ==> dst[i] == e.src[i - s0.op + s0.ip]
    ensures Promises(e, AtEnd(s0.ip + s0.length, s0.op + s0.length), dst, t)
  {
    var out := e.dict + before[e.low..s0.op];
    LiteralStep(e.src, s0.ip, s0.nibble, s0.length, out, t);
    var all := e.dict + dst[e.low..s0.op + s0.length];
    assert all == out + e.src[s0.ip..];
    assert all + [] == all;
  }

  method FastLiterals(e: Env, dst: array<byte>, s0: State, ghost t: Target) returns (s: State)
    requires s0.AtLiterals? && Promises(e, s0, dst, t) && s0.op + FASTLOOP_SAFE_DISTANCE <= dst.Length
    modifies dst
    ensures Follows(e, s0, s, dst, t)
    ensures s == s0 || (s.AtOffset? && s0.ip <= s.ip && s.op + 32 <= dst.Length)
  {
    var iend, oend := |e.src|, dst.Length;
    var ip, op, length := s0.ip, s0.op, s0.length;
    if length >= RUN_MASK {
      if op + length > oend - 32 || ip + length > iend - 32 { return s0; }
      s := WildLiterals(e, dst, s0, 32, t);
    } else {
      if ip > iend - (16 + 1) { return s0; }
      s := ShortLiterals(e, dst, s0, t);
    }
  }

  /** Literals by words of `stride` bytes, up to a word too many. */
  method WildLiterals(e: Env, dst: array<byte>, s0: State, stride: nat, ghost t: Target) returns (s: State)
    requires s0.AtLiterals? && Promises(e, s0, dst, t) && (stride == 8 || stride == 32)
    requires s0.op + s0.length + stride <= dst.Length && s0.ip + s0.length + stride <= |e.src|
    requires s0.op + s0.length + MATCH_SAFEGUARD_DISTANCE <= dst.Length
    modifies dst
    ensures Follows(e, s0, s, dst, t)
    ensures s == AtOffset(s0.ip + s0.length, s0.op + s0.length, s0.nibble)
  {
    ghost var before := dst[..];
    assert e.dict + before[e.low..s0.op] == e.dict + dst[e.low..s0.op];
    WildCopyIn(dst, s0.op, e.src, s0.ip, s0.op + s0.length, stride);
    LiteralsCopied(e, before, dst, s0, t);
    s := AtOffset(s0.ip + s0.length, s0.op + s0.length, s0.nibble);
  }

  /** Sixteen bytes at once for a short run. */
  method ShortLiterals(e: Env, dst: array<byte>, s0: State, ghost t: Target) returns (s: State)
    requires s0.AtLiterals? && Promises(e, s0, dst, t) && s0.length < RUN_MASK
    requires s0.ip + 17 <= |e.src| && s0.op + 32 <= dst.Length
    modifies dst
    ensures Follows(e, s0, s, dst, t)
    ensures s == AtOffset(s0.ip + s0.length, s0.op + s0.length, s0.nibble)
  {
    ghost var before := dst[..];
    assert e.dict + before[e.low..s0.op] == e.dict + dst[e.low..s0.op];
    CopyIn(dst, s0.op, e.src, s0.ip, 16);
    LiteralsCopied(e, before, dst, s0, t);
    s := AtOffset(s0.ip + s0.length, s0.op + s0.length, s0.nibble);
  }

  /** Offset and, when it is extended, match length. */
  method OffsetField(e: Env, dst: array<byte>, s0: State, ghost t: Target) returns (s: State)
    requires s0.AtOffset? && Promises(e, s0, dst, t)
    ensures Promises(e, s, dst, t)
    ensures s.AtLength? && s.ip == s0.ip + 2 && s.op == s0.op && s.nibble == s0.nibble
  {
    var out := e.dict + dst[e.low..s0.op];
    s := AtLength(s0.ip + 2, s0.op, Le16(e.src, s0.ip), s0.nibble);
    assert Faithful(Remaining(e.src, s), out, t);
  }

  method LengthField(e: Env, dst: array<byte>, s0: State, ghost t: Target) returns (s: State)
    requires s0.AtLength? && Promises(e, s0, dst, t)
    ensures Promises(e, s, dst, t)
    ensures s.Failed? || (s.AtCopy? && s.op == s0.op && s.offset == s0.offset && s0.ip <= s.ip)
    ensures s0.nibble != ML_MASK ==> s.AtCopy? && s.length == s0.nibble + MINMATCH && s.ip == s0.ip
  {
    var ip, length := s0.ip, s0.nibble;
    MatchLength(e.src, ip, s0.offset, s0.nibble, e.dict + dst[e.low..s0.op], t);
    if length == ML_MASK {
      ExtensionShift(e.src, ip, 0, ML_MASK);
      var addl;
      addl, ip := ReadVariableLength(e.src, ip, |e.src| - LASTLITERALS + 1, false);
      if addl.None? { return Failed(ip); }
      length := length + addl.value;
    }
    s := AtCopy(ip, s0.op, s0.offset, length + MINMATCH);
  }

  /** A match that now stands in the buffer leads on to the next token. */
  lemma MatchCopied(e: Env, before: seq<byte>, dst: array<byte>, s0: State, t: Target)
    requires s0.AtCopy? && e.Valid(s0.op) && s0.op <= |before| == dst.Length && s0.ip < |e.src|
    requires Faithful(Remaining(e.src, s0), e.dict + before[e.low..s0.op], t)
    requires t.conforming ==> t.total <= |e.dict| + dst.Length - e.low
    requires s0.op + s0.length <= dst.Length
    requires forall i :: 0 <= i < s0.op ==> dst[i] == before[i]
    requires Continues(e.dict + dst[e.low..s0.op], s0.offset, e.dict + dst[e.low..s0.op + s0.length], [])
    ensures Promises(e, AtToken(s0.ip, s0.op + s0.length), dst, t)
  {
    assert dst[e.low..s0.op] == before[e.low..s0.op];
    CopyStep(e.src, s0.ip, s0.offset, s0.length, e.dict + dst[e.low..s0.op], e.dict + dst[e.low..s0.op + s0.length], t);
  }

  /** The test both loops make before a match copy: the match must not start before the history. */
  method OffsetTooFar(e: Env, dst: array<byte>, s0: State, ghost t: Target) returns (error: bool)
    requires s0.AtCopy? && Promises(e, s0, dst, t)
    ensures error ==> !t.conforming
    ensures !error ==> e.low <= s0.op - s0.offset + |e.dict|
    ensures !error && e.mode != UsingExtDict ==> e.low <= s0.op - s0.offset
  {
    error := e.CheckOffset() && s0.op - s0.offset + |e.dict| < e.low;
    if t.conforming {
      CopyBounds(e.src, s0.ip, s0.offset, s0.length, e.dict + dst[e.low..s0.op], t);
    }
  }

  method FastMatch(e: Env, dst: array<byte>, s0: State, ghost t: Target) returns (s: State)
    requires s0.AtOffset? && Promises(e, s0, dst, t) && s0.op + 32 <= dst.Length
    modifies dst
    ensures Follows(e, s0, s, dst, t)
    ensures s.AtToken? || s.AtCopy? || s.Failed?
    ensures s.AtToken? ==> s0.ip < s.ip && s.op + FASTLOOP_SAFE_DISTANCE <= dst.Length
  {
    s := OffsetField(e, dst, s0, t);
    s := LengthField(e, dst, s, t);
    if s.Failed? { return; }
    if s0.nibble == ML_MASK {
      var error := OffsetTooFar(e, dst, s, t);
      if error { return Failed(s.ip); }
    }
    if s.op + s.length >= dst.Length - FASTLOOP_SAFE_DISTANCE { return; }
    s := FastCopy(e, dst, s, s0.nibble, t);
  }

  /** The match copy of the fast loop, far from the end of the buffer. */
  method FastCopy(e: Env, dst: array<byte>, s0: State, nibble: nat, ghost t: Target) returns (s: State)
    requires s0.AtCopy? && Promises(e, s0, dst, t)
    requires nibble != ML_MASK && nibble <= 15 ==> s0.length == nibble + MINMATCH
    requires nibble <= 15 && s0.op + s0.length + FASTLOOP_SAFE_DISTANCE < dst.Length && s0.op + 32 <= dst.Length
    modifies dst
    ensures Follows(e, s0, s, dst, t)
    ensures s.Failed? || s == AtToken(s0.ip, s0.op + s0.length)
  {
    var op, offset := s0.op, s0.offset;
    if nibble != ML_MASK && (e.mode == WithPrefix64k || op - offset >= e.low) && offset >= 8 {
      s := ShortMatch(e, dst, s0, t);
    } else {
      var error := OffsetTooFar(e, dst, s0, t);
      if error { return Failed(s0.ip); }
      s := LongMatch(e, dst, s0, t);
    }
  }

  method LongMatch(e: Env, dst: array<byte>, s0: State, ghost t: Target) returns (s: State)
    requires s0.AtCopy? && Promises(e, s0, dst, t) && s0.op + s0.length + FASTLOOP_SAFE_DISTANCE < dst.Length
    requires e.low <= s0.op - s0.offset + |e.dict| && (e.mode != UsingExtDict ==> e.low <= s0.op - s0.offset)
    modifies dst
    ensures Follows(e, s0, s, dst, t)
    ensures s == AtToken(s0.ip, s0.op + s0.length)
  {
    ghost var before := dst[..];
    LongCopy(e, dst, s0.op, s0.offset, s0.length);
    MatchCopied(e, before, dst, s0, t);
    s := AtToken(s0.ip, s0.op + s0.length);
  }

  method ShortMatch(e: Env, dst: array<byte>, s0: State, ghost t: Target) returns (s: State)
    requires s0.AtCopy? && Promises(e, s0, dst, t)
    requires s0.length <= 18 && s0.offset >= 8 && s0.op + 18 <= dst.Length && e.low <= s0.op - s0.offset
    modifies dst
    ensures Follows(e, s0, s, dst, t)
    ensures s == AtToken(s0.ip, s0.op + s0.length)
  {
    ghost var before := dst[..];
    ShortCopy(e, dst, s0.op, s0.offset, s0.length);
    MatchCopied(e, before, dst, s0, t);
    s := AtToken(s0.ip, s0.op + s0.length);
  }

  method ShortCopy(e: Env, dst: array<byte>, op: nat, offset: nat, length: nat)
    requires e.low <= op - offset && 8 <= offset && op + 18 <= dst.Length && length <= 18
    modifies dst
    ensures forall i :: 0 <= i < op ==> dst[i] == old(dst[i])
    ensures Continues(e.dict + dst[e.low..op], offset, e.dict + dst[e.low..op + length], [])
  {
    Copy18(dst, op, offset, length);
    RepeatsContinues(e.dict, dst[..], e.low, op, op + length, offset);
  }

  method LongCopy(e: Env, dst: array<byte>, op: nat, offset: nat, length: nat)
    requires e.low <= op && e.low <= op - offset + |e.dict| && (e.mode != UsingExtDict ==> e.low <= op - offset)
    requires MINMATCH <= length && op + length + FASTLOOP_SAFE_DISTANCE < dst.Length
    modifies dst
    ensures forall i :: 0 <= i < op ==> dst[i] == old(dst[i])
    ensures Continues(e.dict + dst[e.low..op], offset, e.dict + dst[e.low..op + length], [])
  {
    if e.mode == UsingExtDict && op - offset < e.low {
      ExtDictCopy(e, dst, op, offset, length);
    } else {
      if offset < 16 {
        MemcpyUsingOffset(dst, op, op + length, offset);
      } else {
        WildCopy32(dst, op, op - offset, op + length);
      }
      RepeatsContinues(e.dict, dst[..], e.low, op, op + length, offset);
    }
  }

  /** The fast loop: it leaves for one of the labels of the safe loop, or fails. */
  method FastLoop(e: Env, dst: array<byte>, s0: State, ghost t: Target) returns (s: State)
    requires s0.AtToken? && Promises(e, s0, dst, t) && s0.op + FASTLOOP_SAFE_DISTANCE <= dst.Length
    modifies dst
    ensures Follows(e, s0, s, dst, t)
    ensures s.AtLiterals? || s.AtCopy? || s.Failed?
  {
    s := s0;
    while s.AtToken?
      invariant Follows(e, s0, s, dst, t)
      invariant s.AtToken? ==> s.op + FASTLOOP_SAFE_DISTANCE <= dst.Length
      invariant s.AtToken? || s.AtLiterals? || s.AtCopy? || s.Failed?
      decreases s.AtToken?, |e.src| - s.ip
    {
      s := LiteralField(e, dst, s, t);
      if s.Failed? { return; }
      s := FastLiterals(e, dst, s, t);
      if !s.AtOffset? { return; }
      s := FastMatch(e, dst, s, t);
    }
  }

  // ---------------------------------------------------------------- the safe loop

  /** The two-stage shortcut: up to 14 literals, then up to 18 bytes of a match a word away. */
  method Shortcut(e: Env, dst: array<byte>, s0: State, ghost t: Target) returns (s: State)
    requires s0.AtLiterals? && Promises(e, s0, dst, t) && s0.length < RUN_MASK
    requires s0.ip + 16 < |e.src| && s0.op + 32 <= dst.Length
    modifies dst
    ensures Follows(e, s0, s, dst, t)
    ensures (s.AtToken? || s.AtLength?) && s0.ip < s.ip
  {
    s := ShortLiterals(e, dst, s0, t);
    s := OffsetField(e, dst, s, t);
    if s0.nibble != ML_MASK && s.offset >= 8 && (e.mode == WithPrefix64k || s.op - s.offset >= e.low) {
      s := ShortcutMatch(e, dst, s, t);
    }
  }

  method ShortcutMatch(e: Env, dst: array<byte>, s0: State, ghost t: Target) returns (s: State)
    requires s0.AtLength? && Promises(e, s0, dst, t) && s0.op + 18 <= dst.Length
    requires s0.nibble != ML_MASK && s0.offset >= 8 && (e.mode == WithPrefix64k || s0.op - s0.offset >= e.low)
    modifies dst
    ensures Follows(e, s0, s, dst, t)
    ensures s.AtToken? && s0.ip <= s.ip
  {
    s := LengthField(e, dst, s0, t);
    s := ShortMatch(e, dst, s, t);
  }

  /** Label safe_literal_copy: the last run of literals, or literals with room behind them. */
  method SafeLiterals(e: Env, dst: array<byte>, s0: State, ghost t: Target) returns (s: State)
    requires s0.AtLiterals? && Promises(e, s0, dst, t)
    modifies dst
    ensures Follows(e, s0, s, dst, t)
    ensures s.AtEnd? || s.Failed? || (s.AtOffset? && s0.ip <= s.ip)
  {
    var iend, oend := |e.src|, dst.Length;
    var ip, op, length := s0.ip, s0.op, s0.length;
    ghost var before := dst[..];
    assert e.dict + before[e.low..op] == e.dict + dst[e.low..op];
    LiteralStep(e.src, ip, s0.nibble, length, e.dict + before[e.low..op], t);
    if op + length > oend - MFLIMIT || ip + length > iend - (2 + 1 + LASTLITERALS) {
      if ip + length != iend || op + length > oend { return Failed(ip); }
      CopyIn(dst, op, e.src, ip, length);
      LastCopied(e, before, dst, s0, t);
      s := AtEnd(ip + length, op + length);
    } else {
      s := WildLiterals(e, dst, s0, 8, t);
    }
  }

  /** Label safe_match_copy. */
  method SafeMatch(e: Env, dst: array<byte>, s0: State, ghost t: Target) returns (s: State)
    requires s0.AtCopy? && Promises(e, s0, dst, t)
    modifies dst
    ensures Follows(e, s0, s, dst, t)
    ensures s.Failed? || s == AtToken(s0.ip, s0.op + s0.length)
  {
    ghost var before := dst[..];
    var op, offset, length := s0.op, s0.offset, s0.length;
    var error := OffsetTooFar(e, dst, s0, t);
    if error { return Failed(s0.ip); }
    if t.conforming {
      CopyBounds(e.src, s0.ip, offset, length, e.dict + dst[e.low..op], t);
    }
    var ok := SafeCopy(e, dst, op, offset, length);
    if !ok { return Failed(s0.ip); }
    MatchCopied(e, before, dst, s0, t);
    s := AtToken(s0.ip, op + length);
  }

  /** The match copy of the safe loop; it refuses a match that ends within the last literals. */
  method SafeCopy(e: Env, dst: array<byte>, op: nat, offset: nat, length: nat) returns (ok: bool)
    requires e.low <= op && op + MATCH_SAFEGUARD_DISTANCE <= dst.Length && MINMATCH <= length
    requires e.low <= op - offset + |e.dict| && (e.mode != UsingExtDict ==> e.low <= op - offset)
    modifies dst
    ensures forall i :: 0 <= i < op ==> dst[i] == old(dst[i])
    ensures ok <==> op + length + LASTLITERALS <= dst.Length
    ensures ok ==> Continues(e.dict + dst[e.low..op], offset, e.dict + dst[e.low..op + length], [])
  {
    ok := op + length <= dst.Length - LASTLITERALS;
    if e.mode == UsingExtDict && op - offset < e.low {
      if ok { ExtDictCopy(e, dst, op, offset, length); }
    } else if ok {
      SafeCopyWithin(dst, op, offset, length);
      RepeatsContinues(e.dict, dst[..], e.low, op, op + length, offset);
    } else {
      SafeCopyRefused(dst, op, offset);
    }
  }

  /** The first word is written before the code finds that the match ends too late. */
  method SafeCopyRefused(dst: array<byte>, op: nat, offset: nat)
    requires offset <= op && op + MATCH_SAFEGUARD_DISTANCE <= dst.Length
    modifies dst
    ensures forall i :: 0 <= i < op ==> dst[i] == old(dst[i])
  {
    if offset < 8 {
      var from := OverlapStart(dst, op, offset);
    } else {
      Memcpy(dst, op, op - offset, 8);
    }
  }

  /** From a token to the next control point of the safe loop. */
  method SafeToken(e: Env, dst: array<byte>, s0: State, ghost t: Target) returns (s: State)
    requires s0.AtToken? && Promises(e, s0, dst, t)
    modifies dst
    ensures Follows(e, s0, s, dst, t)
    ensures s.Failed? || (s0.ip < s.ip && (s.AtToken? || s.AtLiterals? || s.AtLength?))
  {
    s := LiteralField(e, dst, s0, t);
    if s.AtLiterals? && s.length < RUN_MASK && s.ip < |e.src| - 14 - 2 && s.op <= dst.Length - 14 - 18 {
      s := Shortcut(e, dst, s, t);
    }
  }

  /** Orders the control points that stand at the same input position. */
  function Rank(s: State): nat {
    match s
    case AtLiterals(_, _, _, _) => 4
    case AtOffset(_, _, _) => 3
    case AtLength(_, _, _, _) => 2
    case AtCopy(_, _, _, _) => 1
    case _ => 0
  }

  /** The safe loop, entered at any of its labels. */
  method SafeLoop(e: Env, dst: array<byte>, s0: State, ghost t: Target) returns (s: State)
    requires (s0.AtToken? || s0.AtLiterals? || s0.AtCopy?) && Promises(e, s0, dst, t)
    modifies dst
    ensures Follows(e, s0, s, dst, t)
    ensures s.AtEnd? || s.Failed?
  {
    s := s0;
    while !s.AtEnd? && !s.Failed?
      invariant Follows(e, s0, s, dst, t)
      decreases if s.AtEnd? || s.Failed? then 0 else 1, |e.src| - s.ip,
        Rank(s)
    {
      match s
      case AtToken(_, _) => s := SafeToken(e, dst, s, t);
      case AtLiterals(_, _, _, _) => s := SafeLiterals(e, dst, s, t);
      case AtOffset(_, _, _) => s := OffsetField(e, dst, s, t);
      case AtLength(_, _, _, _) => s := LengthField(e, dst, s, t);
      case AtCopy(_, _, _, _) => s := SafeMatch(e, dst, s, t);
    }
  }

  // ---------------------------------------------------------------- the whole decoder

  /** Decodes `e.src` into `dst[start..]`: the number of bytes written, or a negative code that tells
      how far the input was read.

      A result that is not negative is the meaning of the input; every input that meets the parsing
      restrictions for an output that fits is accepted. */
  method DecompressGeneric(e: Env, dst: array<byte>, start: nat) returns (r: int)
    requires start <= dst.Length && e.Valid(start)
    modifies dst
    ensures forall i :: 0 <= i < start ==> dst[i] == old(dst[i])
    ensures -|e.src| - 1 <= r <= dst.Length - start
    ensures var out := e.dict + old(dst[e.low..start]);
      && (r >= 0 ==> Decode(e.src, out, []) == Some(e.dict + dst[e.low..start + r]))
      && (start < dst.Length ==>
           forall total: nat ::
             (Conforming(Parse(e.src, 0), |out|, total) && total <= |e.dict| + dst.Length - e.low)
             ==> r == total - |out|)
      && (start == dst.Length ==> (r == 0 <==> e.src == [0]))
  {
    ghost var out := e.dict + dst[e.low..start];
    if dst.Length - start == 0 {
      r := if |e.src| == 1 && e.src[0] == 0 then 0 else -1;
      if r == 0 {
        assert e.src[1..1 + 0] == [];
        assert ParseLiterals(e.src, 1, 0, 0) == Some(Last([])) && Parse(e.src, 0) == Some(Last([]));
        assert out == out + [];
      }
      return;
    }
    if |e.src| == 0 { return -1; }
    ghost var b := Parse(e.src, 0);
    ghost var fits := exists total: nat :: Conforming(b, |out|, total) && total <= |e.dict| + dst.Length - e.low;
    ghost var total: nat := 0;
    if fits { total :| Conforming(b, |out|, total) && total <= |e.dict| + dst.Length - e.low; }
    ghost var t := Target(if b.None? then None else Meaning(b.value, out, []), total, fits);
    var s := AtToken(0, start);
    assert Promises(e, s, dst, t);
    s := FastThenSafe(e, dst, s, t);
    if s.Failed? { return -(s.ip as int) - 1; }
    r := s.op - start;
    ghost var end := e.dict + dst[e.low..start + r];
    assert end + [] == end;
    assert Open(t) && t.goal == Some(end);
    forall total': nat | Conforming(b, |out|, total') && total' <= |e.dict| + dst.Length - e.low
      ensures r == total' - |out|
    {
      ConformingHasMeaning(b.value, out, total', []);
    }
  }

  method FastThenSafe(e: Env, dst: array<byte>, s0: State, ghost t: Target) returns (s: State)
    requires s0.AtToken? && Promises(e, s0, dst, t)
    modifies dst
    ensures Follows(e, s0, s, dst, t)
    ensures s.AtEnd? || s.Failed?
  {
    s := s0;
    if dst.Length - s0.op >= FASTLOOP_SAFE_DISTANCE {
      s := FastLoop(e, dst, s, t);
    }
    if !s.Failed? { s := SafeLoop(e, dst, s, t); }
  }
}
