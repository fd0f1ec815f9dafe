/** LZ4_compress_generic_validated without a dictionary, in its three output modes. */
module Lz4Encoder {
  import opened Wrappers
  import opened Lz4Format
  import opened Lz4Memory
  import opened Lz4Search
  import opened Lz4Sequences
  import Lz4Count

  datatype OutputMode = NotLimited | LimitedOutput | FillOutput

  /** What one call of the encoder never changes. */
  datatype Task = Task(job: Job, mode: OutputMode, acceleration: nat)

  function CompressBound(n: nat): nat {
    if n > MAX_INPUT_SIZE then 0 else n + n / 255 + 16
  }

  // ---------------------------------------------------------------- writing lengths

  lemma {:induction false} ExtensionShape(s: seq<byte>, k: nat)
    requires |s| == k / 255 + 1 && s[k / 255] == k % 255
    requires forall i :: 0 <= i < k / 255 ==> s[i] == 255
    ensures s == Extension(k)
    decreases k
  {
    if k >= 255 {
      assert (k - 255) / 255 == k / 255 - 1 && (k - 255) % 255 == k % 255;
      ExtensionShape(s[1..], k - 255);
      assert s == [s[0]] + s[1..];
    } else {
      assert s == [k];
    }
  }

  /** Literal run length: one byte at a time. */
  method WriteRunLength(dst: array<byte>, op0: nat, n: nat) returns (op: nat)
    requires RUN_MASK <= n && op0 + (n - RUN_MASK) / 255 + 1 <= dst.Length
    modifies dst
    ensures op == op0 + (n - RUN_MASK) / 255 + 1
    ensures forall i :: 0 <= i < op0 ==> dst[i] == old(dst[i])
    ensures dst[op0..op] == LengthBytes(n)
  {
    var len: nat := n - RUN_MASK;
    op := op0;
    while len >= 255
      invariant op0 <= op < dst.Length && len + 255 * (op - op0) == n - RUN_MASK
      invariant forall i :: 0 <= i < op0 ==> dst[i] == old(dst[i])
      invariant forall i :: op0 <= i < op ==> dst[i] == 255
    {
      dst[op] := 255;
      op, len := op + 1, len - 255;
    }
    dst[op] := len;
    op := op + 1;
    ExtensionShape(dst[op0..op], n - RUN_MASK);
  }

  method Write32Ones(dst: array<byte>, op: nat)
    requires op + 4 <= dst.Length
    modifies dst
    ensures forall i :: 0 <= i < dst.Length && !(op <= i < op + 4) ==> dst[i] == old(dst[i])
    ensures forall i :: op <= i < op + 4 ==> dst[i] == 255
  {
    forall i | op <= i < op + 4 { dst[i] := 255; }
  }

  /** Match length: four 0xFF bytes at a time, written ahead of what is counted. */
  method WriteMatchLength(dst: array<byte>, op0: nat, matchCode0: nat) returns (op: nat)
    requires ML_MASK <= matchCode0 && op0 + (matchCode0 - ML_MASK) / 255 + 4 <= dst.Length
    modifies dst
    ensures op == op0 + (matchCode0 - ML_MASK) / 255 + 1
    ensures forall i :: 0 <= i < op0 ==> dst[i] == old(dst[i])
    ensures dst[op0..op] == LengthBytes(matchCode0)
  {
    var matchCode := matchCode0 - ML_MASK;
    op := op0;
    Write32Ones(dst, op);
    while matchCode >= 4 * 255
      invariant op0 <= op && matchCode + 255 * (op - op0) == matchCode0 - ML_MASK
      invariant forall i :: 0 <= i < op0 ==> dst[i] == old(dst[i])
      invariant op + 4 <= dst.Length && forall i :: op0 <= i < op + 4 ==> dst[i] == 255
    {
      op := op + 4;
      Write32Ones(dst, op);
      matchCode := matchCode - 4 * 255;
    }
    op := op + matchCode / 255;
    dst[op] := matchCode % 255;
    op := op + 1;
    ExtensionShape(dst[op0..op], matchCode0 - ML_MASK);
  }

  // ---------------------------------------------------------------- room and progress

  /** A match ends where it stops, or where the output is full. */
  predicate EndsWell(j: Task, olimit: nat, op: nat, end: nat, offset: nat) {
    StopsThere(j.job.src, end, offset) || (j.mode == FillOutput && op + 1 + LASTLITERALS == olimit)
  }

  /** The space that is left, by mode: `op` bytes are written, `anchor` bytes are consumed. */
  predicate Room(j: Task, olimit: nat, e: Emitted, anchor: nat, op: nat) {
    match j.mode
    case NotLimited => CompressBound(|j.job.src|) <= olimit && 255 * op <= 256 * anchor
    case LimitedOutput => e.Then? ==> op + 1 + LASTLITERALS <= olimit
    case FillOutput =>
      && op + 1 <= olimit
      && (e.Then? ==> op + 1 + LASTLITERALS <= olimit)
      && op + 1 + Needs(e, anchor) <= olimit + anchor
  }

  /** Holds of everything; a proof mentions it to look into Sound and Longest. */
  predicate Look(e: Emitted) { true }

  /** The output so far is the sequences so far, they spell the source so far, and there is room. */
  ghost predicate Progress(j: Task, dst: array<byte>, e: Emitted, anchor: nat, op: nat)
    reads dst
  {
    && op <= dst.Length
    && Sound(j, dst[..op], e, anchor)
    && Room(j, dst.Length, e, anchor, op)
  }

  /** A match is cut short only to fill the output. */
  ghost predicate Longest(j: Task, olimit: nat, e: Emitted, anchor: nat, op: nat) {
    forall x {:trigger Look(x)} :: Look(x) && x == e ==>
      Maximal(x, j.job.src, anchor, j.mode == FillOutput && op + 1 + LASTLITERALS == olimit)
  }

  ghost predicate Sound(j: Task, written: seq<byte>, e: Emitted, anchor: nat) {
    && anchor <= |j.job.src| && Needs(e, anchor) <= |j.job.src|
    && forall x {:trigger Look(x)} :: Look(x) && x == e ==>
      Spells(x, j.job.src, anchor) && AllLegal(x) && written == Written(x)
  }

  // ---------------------------------------------------------------- writing a sequence

  /** How a step of the main loop ends: go on, give up with result 0, or write the last literals. */
  datatype Verdict = GoOn | GiveUp | LastRun

  /** Space that is sure to be left once the literals of a sequence are written. */
  predicate RoomForMatch(j: Task, olimit: nat, ip: nat, op: nat) {
    match j.mode
    case NotLimited => CompressBound(|j.job.src|) <= olimit && 255 * op <= 256 * ip + 495
    case LimitedOutput => op + LASTLITERALS <= olimit
    case FillOutput => op + LASTLITERALS <= olimit
  }

  /** The literals, their length bytes and what has to follow do not fit. */
  predicate LiteralsTooLong(j: Task, olimit: nat, token: nat, n: nat) {
    match j.mode
    case NotLimited => false
    case LimitedOutput => token + 1 + n + (2 + 1 + LASTLITERALS) + n / 255 > olimit
    case FillOutput => token + 1 + (n + 240) / 255 + n + 2 + 1 + MFLIMIT - MINMATCH > olimit
  }

  method EncodeLiterals(j: Task, dst: array<byte>, ghost e: Emitted, anchor: nat, ip: nat, token: nat)
    returns (v: Verdict, op: nat)
    requires j.job.Valid() && Progress(j, dst, e, anchor, token) && anchor <= ip && ip + MFLIMIT <= |j.job.src|
    modifies dst
    ensures Progress(j, dst, e, anchor, token)
    ensures v == (if !LiteralsTooLong(j, dst.Length, token, ip - anchor) then GoOn
                  else if j.mode == LimitedOutput then GiveUp else LastRun)
    ensures v == GoOn ==>
      && token < op <= dst.Length && RoomForMatch(j, dst.Length, ip, op)
      && op == token + 1 + ExtraBytes(ip - anchor) + (ip - anchor)
      && dst[token..op] == LiteralBytes(j.job.src[anchor..ip], 0)
  {
    var olimit := dst.Length;
    var litLength := ip - anchor;
    op := token + 1;
    if j.mode == LimitedOutput && op + litLength + (2 + 1 + LASTLITERALS) + litLength / 255 > olimit {
      return GiveUp, op;
    }
    if j.mode == FillOutput && op + (litLength + 240) / 255 + litLength + 2 + 1 + MFLIMIT - MINMATCH > olimit {
      return LastRun, op;
    }
    LengthSize(litLength);
    LiteralsFit(j, olimit, e, anchor, ip, token);
    op := WriteLiterals(dst, j.job.src, anchor, ip, token);
    v := GoOn;
  }

  /** The capacity tests cover the length bytes and the 8-byte copies that run past the literals. */
  lemma LiteralsFit(j: Task, olimit: nat, e: Emitted, anchor: nat, ip: nat, token: nat)
    requires j.job.Valid() && Room(j, olimit, e, anchor, token) && anchor <= ip && ip + MFLIMIT <= |j.job.src|
    requires j.mode == LimitedOutput ==>
      token + 1 + (ip - anchor) + (2 + 1 + LASTLITERALS) + (ip - anchor) / 255 <= olimit
    requires j.mode == FillOutput ==>
      token + 1 + (ip - anchor + 240) / 255 + (ip - anchor) + 2 + 1 + MFLIMIT - MINMATCH <= olimit
    ensures var op := token + 1 + ExtraBytes(ip - anchor);
      && WildEnd(op, op + (ip - anchor), 8) <= olimit
      && RoomForMatch(j, olimit, ip, op + (ip - anchor))
  {
  }

  lemma HeadAndTail(s: seq<byte>, i: nat, j: nat)
    requires i < j <= |s|
    ensures s[i..j] == [s[i]] + s[i + 1..j]
  {
  }

  /** The token of a literal run, its match half still 0, and the bytes that extend it. */
  method WriteRunHeader(dst: array<byte>, token: nat, n: nat) returns (op: nat)
    requires token + 1 + ExtraBytes(n) <= dst.Length
    modifies dst
    ensures op == token + 1 + ExtraBytes(n)
    ensures forall i :: 0 <= i < token ==> dst[i] == old(dst[i])
    ensures dst[token..op] == [Nibble(n) * 16] + LengthBytes(n)
  {
    op := token + 1;
    dst[token] := Nibble(n) * 16;
    if n >= RUN_MASK {
      op := WriteRunLength(dst, op, n);
      HeadAndTail(dst[..], token, op);
      assert dst[token..op] == dst[..][token..op] && dst[token + 1..op] == dst[..][token + 1..op];
    }
  }

  lemma Joined(s: seq<byte>, i: nat, j: nat, k: nat)
    requires i <= j <= k <= |s|
    ensures s[i..k] == s[i..j] + s[j..k]
  {
  }

  method WriteLiterals(dst: array<byte>, src: seq<byte>, anchor: nat, ip: nat, token: nat) returns (op: nat)
    requires anchor <= ip && ip + 8 <= |src|
    requires var q := token + 1 + ExtraBytes(ip - anchor); WildEnd(q, q + (ip - anchor), 8) <= dst.Length
    modifies dst
    ensures op == token + 1 + ExtraBytes(ip - anchor) + (ip - anchor)
    ensures token < op <= dst.Length
    ensures dst[..token] == old(dst[..token])
    ensures dst[token..op] == LiteralBytes(src[anchor..ip], 0)
  {
    var litLength := ip - anchor;
    op := WriteRunHeader(dst, token, litLength);
    ghost var head := dst[..];
    WildCopyIn(dst, op, src, anchor, op + litLength, 8);
    assert dst[token..op] == head[token..op];
    assert dst[op..op + litLength] == src[anchor..ip];
    Joined(dst[..], token, op, op + litLength);
    op := op + litLength;
  }

  /** A match at `ip` is known to hold up to `known + 4`, and no position after `known` is filed. */
  ghost predicate MatchReady(j: Task, table: array<nat>, anchor: nat, ip: nat, offset: nat, known: nat, filledIp: nat)
    reads table
  {
    && anchor <= ip <= known && known + MFLIMIT <= |j.job.src|
    && 0 < offset <= DISTANCE_MAX && offset <= ip && StartsThere(j.job.src, ip, offset, ip - anchor)
    && (forall k :: ip <= k < known + 4 ==> j.job.src[k] == j.job.src[k - offset])
    && Indexed(j.job, table, known + 1) && filledIp + MFLIMIT <= |j.job.src| && (known <= filledIp || known == ip)
  }

  method WriteOffset(dst: array<byte>, op: nat, offset: nat)
    requires offset <= DISTANCE_MAX && op + 2 <= dst.Length
    modifies dst
    ensures dst[..op] == old(dst[..op])
    ensures dst[op..op + 2] == [offset % 256, offset / 256]
  {
    dst[op], dst[op + 1] := offset % 256, offset / 256;
  }

  lemma EqualParts(src: seq<byte>, s: nat, t: nat, n: nat)
    requires t <= s && s + n <= |src| && src[s..s + n] == src[t..t + n]
    ensures forall k :: s <= k < s + n ==> src[k] == src[k - (s - t)]
  {
    forall k | s <= k < s + n ensures src[k] == src[k - (s - t)] {
      assert src[k] == src[s..s + n][k - s] == src[t..t + n][k - s];
    }
  }

  /** The length of a match beyond MINMATCH: the longest the source allows before its last literals. */
  method MatchCode(j: Task, table: array<nat>, anchor: nat, ip: nat, offset: nat, ghost known: nat, filledIp: nat)
    returns (matchCode: nat)
    requires j.job.Valid() && MatchReady(j, table, anchor, ip, offset, known, filledIp)
    ensures matchCode == FullLength(j.job.src, ip, offset)
    ensures known < ip + MINMATCH + matchCode <= |j.job.src| - LASTLITERALS
    ensures forall k :: ip <= k < ip + MINMATCH + matchCode ==> j.job.src[k] == j.job.src[k - offset]
  {
    var s, t := ip + MINMATCH, ip - offset + MINMATCH;
    matchCode := Lz4Count.Count(j.job.src, s, t, |j.job.src| - LASTLITERALS);
    EqualParts(j.job.src, s, t, matchCode);
  }

  /** Takes the positions `ip..filledIp` out of the table again. */
  method ClearPositions(j: Task, table: array<nat>, ip: nat, filledIp: nat)
    requires j.job.Valid() && 0 < ip && filledIp + MFLIMIT <= |j.job.src| && Indexed(j.job, table, filledIp + 1)
    modifies table
    ensures Indexed(j.job, table, ip)
  {
    var ptr := ip;
    while ptr <= filledIp
      invariant ip <= ptr && Indexed(j.job, table, filledIp + 1)
      invariant forall h :: 0 <= h < table.Length ==> table[h] < ip || ptr <= table[h]
    {
      var h := j.job.HashPosition(ptr);
      table[h] := 0;
      ptr := ptr + 1;
    }
  }

  /** The description of a match of `n` bytes more than the least and what has to follow do not fit. */
  predicate MatchTooLong(j: Task, olimit: nat, op: nat, n: nat) {
    j.mode != NotLimited && op + (1 + LASTLITERALS) + (n + 240) / 255 > olimit
  }

  /** The length `n` that is written for a match of `full` bytes more than the least. */
  predicate Fitted(j: Task, olimit: nat, op: nat, full: nat, n: nat) {
    if MatchTooLong(j, olimit, op, full) then n < full && op + ExtraBytes(n) + 1 + LASTLITERALS == olimit else n == full
  }

  /** Whether the description of a match fits; with fillOutput a match too long is made shorter. */
  method FitMatch(j: Task, table: array<nat>, olimit: nat, op: nat, ip0: nat, matchCode0: nat, filledIp: nat,
        ghost known: nat)
    returns (v: Verdict, matchCode: nat)
    requires j.job.Valid() && ip0 <= known < ip0 + MINMATCH + matchCode0 && known + MFLIMIT <= |j.job.src|
    requires Indexed(j.job, table, known + 1) && filledIp + MFLIMIT <= |j.job.src|
    requires (known <= filledIp || known == ip0)
    requires j.mode == FillOutput ==> op + 1 + MFLIMIT - MINMATCH <= olimit
    modifies table
    ensures matchCode <= matchCode0
    ensures v == if j.mode == LimitedOutput && MatchTooLong(j, olimit, op, matchCode0) then GiveUp else GoOn
    ensures v == GoOn ==> Fitted(j, olimit, op, matchCode0, matchCode)
    ensures !(j.mode == FillOutput && MatchTooLong(j, olimit, op, matchCode0)) ==> table[..] == old(table[..])
    ensures v == GoOn ==> Indexed(j.job, table, ip0 + MINMATCH + matchCode)
    ensures v == GoOn && j.mode != NotLimited ==> op + ExtraBytes(matchCode) + 1 + LASTLITERALS <= olimit
  {
    matchCode, v := matchCode0, GoOn;
    if j.mode != NotLimited && op + (1 + LASTLITERALS) + (matchCode + 240) / 255 > olimit {
      if j.mode == FillOutput {
        var newMatchCode := 15 - 1 + (olimit - op - 1 - LASTLITERALS) * 255;
        assert newMatchCode < matchCode;
        matchCode := newMatchCode;
        var ip := ip0 + MINMATCH + matchCode;
        if ip <= filledIp {
          ClearPositions(j, table, ip, filledIp);
        }
      } else {
        v := GiveUp;
      }
    }
  }

  /** Adds the match half to the token of the literal run. */
  method PatchToken(dst: array<byte>, token: nat, op: nat, nibble: nat, ghost literals: seq<byte>,
        ghost tail: seq<byte>)
    requires token < op <= dst.Length && nibble <= 15
    requires dst[token..op] == LiteralBytes(literals, 0) + tail
    modifies dst
    ensures dst[..token] == old(dst[..token])
    ensures dst[token..op] == LiteralBytes(literals, nibble) + tail
  {
    ghost var before := dst[token..op];
    TokenPatched(before, nibble, literals, tail);
    dst[token] := dst[token] + nibble;
    assert dst[token..op] == [before[0] + nibble] + before[1..];
  }

  lemma TokenPatched(s: seq<byte>, nibble: nat, literals: seq<byte>, tail: seq<byte>)
    requires nibble <= 15 && s == LiteralBytes(literals, 0) + tail
    ensures |s| > 0 && s[0] == Nibble(|literals|) * 16
    ensures [s[0] + nibble] + s[1..] == LiteralBytes(literals, nibble) + tail
  {
    var rest := LengthBytes(|literals|) + literals;
    LiteralHead(literals, 0, tail, rest);
    LiteralHead(literals, nibble, tail, rest);
    assert s[1..] == rest + tail;
  }

  lemma LiteralHead(literals: seq<byte>, nibble: nat, tail: seq<byte>, rest: seq<byte>)
    requires nibble <= 15 && rest == LengthBytes(|literals|) + literals
    ensures LiteralBytes(literals, nibble) + tail == [Nibble(|literals|) * 16 + nibble] + (rest + tail)
  {
    Associates([Nibble(|literals|) * 16 + nibble], LengthBytes(|literals|), literals);
    Associates([Nibble(|literals|) * 16 + nibble], rest, tail);
  }

  method WriteLengthAndToken(dst: array<byte>, token: nat, op0: nat, matchCode: nat, ghost literals: seq<byte>,
        ghost offset: nat)
    returns (op: nat)
    requires token < op0 <= dst.Length && offset <= DISTANCE_MAX && 0 < offset
    requires dst[token..op0] == LiteralBytes(literals, 0) + [offset % 256, offset / 256]
    requires matchCode >= ML_MASK ==> op0 + (matchCode - ML_MASK) / 255 + 4 <= dst.Length
    modifies dst
    ensures op == op0 + ExtraBytes(matchCode) <= dst.Length
    ensures dst[..token] == old(dst[..token])
    ensures dst[token..op] == SequenceBytes(literals, offset, matchCode + MINMATCH)
  {
    PatchToken(dst, token, op0, Nibble(matchCode), literals, [offset % 256, offset / 256]);
    op := op0;
    ghost var head := dst[..];
    if matchCode >= ML_MASK {
      op := WriteMatchLength(dst, op, matchCode);
    }
    assert dst[op0..op] == LengthBytes(matchCode);
    WholeSequence(head, dst[..], token, op0, op, literals, offset, matchCode);
  }

  lemma WholeSequence(head: seq<byte>, s: seq<byte>, token: nat, op0: nat, op: nat, literals: seq<byte>,
        offset: nat, matchCode: nat)
    requires token < op0 <= op <= |s| == |head| && 0 < offset <= DISTANCE_MAX && s[op0..op] == LengthBytes(matchCode)
    requires forall i :: 0 <= i < op0 ==> s[i] == head[i]
    requires head[token..op0] == LiteralBytes(literals, Nibble(matchCode)) + [offset % 256, offset / 256]
    ensures s[..token] == head[..token] && s[token..op] == SequenceBytes(literals, offset, matchCode + MINMATCH)
  {
    assert s[token..op0] == head[token..op0];
    Joined(s, token, op0, op);
    Associates(LiteralBytes(literals, Nibble(matchCode)), [offset % 256, offset / 256], LengthBytes(matchCode));
  }

  /** What is left of the room once a whole sequence is written. */
  lemma MatchFits(j: Task, olimit: nat, e: Emitted, ip0: nat, op0: nat, matchCode: nat, literals: seq<byte>,
        offset: nat)
    requires |j.job.src| <= MAX_INPUT_SIZE && RoomForMatch(j, olimit, ip0, op0)
    requires j.mode == FillOutput ==> op0 + 2 + 1 + MFLIMIT - MINMATCH <= olimit
    requires j.mode != NotLimited ==> op0 + 2 + ExtraBytes(matchCode) + 1 + LASTLITERALS <= olimit
    requires ip0 + MINMATCH + matchCode + LASTLITERALS <= |j.job.src|
    ensures matchCode >= ML_MASK ==> op0 + 2 + (matchCode - ML_MASK) / 255 + 4 <= olimit
    ensures Room(j, olimit, Then(e, literals, offset, matchCode + MINMATCH), ip0 + MINMATCH + matchCode,
                 op0 + 2 + ExtraBytes(matchCode))
  {
  }

  /** How long the match is to be: as long as the source allows, or as the output allows. */
  method SizeMatch(j: Task, table: array<nat>, olimit: nat, op: nat, anchor: nat, ip: nat, offset: nat,
        filledIp: nat, ghost known: nat)
    returns (v: Verdict, matchCode: nat)
    requires j.job.Valid() && MatchReady(j, table, anchor, ip, offset, known, filledIp)
    requires j.mode == FillOutput ==> op + 1 + MFLIMIT - MINMATCH <= olimit
    modifies table
    ensures
      var tooLong := MatchTooLong(j, olimit, op, FullLength(j.job.src, ip, offset));
      v == if j.mode == LimitedOutput && tooLong then GiveUp else GoOn
    ensures v == GoOn ==> Fitted(j, olimit, op, FullLength(j.job.src, ip, offset), matchCode)
    ensures v == GoOn ==> EndsWell(j, olimit, op + ExtraBytes(matchCode), ip + MINMATCH + matchCode, offset)
    ensures !(j.mode == FillOutput && MatchTooLong(j, olimit, op, FullLength(j.job.src, ip, offset))) ==>
      table[..] == old(table[..])
    ensures ip + MINMATCH + matchCode <= |j.job.src| - LASTLITERALS
    ensures forall k :: ip <= k < ip + MINMATCH + matchCode ==> j.job.src[k] == j.job.src[k - offset]
    ensures v == GoOn ==> Indexed(j.job, table, ip + MINMATCH + matchCode)
    ensures v == GoOn && j.mode != NotLimited ==> op + ExtraBytes(matchCode) + 1 + LASTLITERALS <= olimit
  {
    matchCode := MatchCode(j, table, anchor, ip, offset, known, filledIp);
    FullLengthStops(j.job.src, ip, offset);
    v, matchCode := FitMatch(j, table, olimit, op, ip, matchCode, filledIp, known);
  }

  method WriteMatch(dst: array<byte>, token: nat, op0: nat, offset: nat, matchCode: nat, ghost literals: seq<byte>)
    returns (op: nat)
    requires token < op0 && op0 + 2 <= dst.Length && 0 < offset <= DISTANCE_MAX
    requires dst[token..op0] == LiteralBytes(literals, 0)
    requires matchCode >= ML_MASK ==> op0 + 2 + (matchCode - ML_MASK) / 255 + 4 <= dst.Length
    modifies dst
    ensures op == op0 + 2 + ExtraBytes(matchCode) <= dst.Length
    ensures dst[..op] == old(dst[..token]) + SequenceBytes(literals, offset, matchCode + MINMATCH)
  {
    WriteOffset(dst, op0, offset);
    Joined(dst[..], token, op0, op0 + 2);
    assert dst[..op0][token..] == dst[token..op0];
    op := WriteLengthAndToken(dst, token, op0 + 2, matchCode, literals, offset);
    Joined(dst[..], 0, token, op);
  }

  /** Writes offset, match length and the match half of the token, once the length is settled. */
  method FinishMatch(j: Task, dst: array<byte>, ghost e: Emitted, anchor: nat, token: nat, op0: nat, ip0: nat,
      offset: nat, matchCode: nat)
    returns (ip: nat, op: nat, ghost e': Emitted)
    requires |j.job.src| <= MAX_INPUT_SIZE && Progress(j, dst, e, anchor, token)
    requires token < op0 <= dst.Length && RoomForMatch(j, dst.Length, ip0, op0)
    requires anchor <= ip0 && ip0 + MFLIMIT <= |j.job.src| && 0 < offset <= DISTANCE_MAX && offset <= ip0
    requires dst[token..op0] == LiteralBytes(j.job.src[anchor..ip0], 0)
    requires ip0 + MINMATCH + matchCode <= |j.job.src| - LASTLITERALS
    requires forall k :: ip0 <= k < ip0 + MINMATCH + matchCode ==> j.job.src[k] == j.job.src[k - offset]
    requires j.mode == FillOutput ==> op0 + 2 + 1 + MFLIMIT - MINMATCH <= dst.Length
    requires j.mode != NotLimited ==> op0 + 2 + ExtraBytes(matchCode) + 1 + LASTLITERALS <= dst.Length
    requires Longest(j, dst.Length, e, anchor, token) && StartsThere(j.job.src, ip0, offset, ip0 - anchor)
    requires EndsWell(j, dst.Length, op0 + 2 + ExtraBytes(matchCode), ip0 + MINMATCH + matchCode, offset)
    modifies dst
    ensures ip == ip0 + MINMATCH + matchCode && Progress(j, dst, e', ip, op) && Longest(j, dst.Length, e', ip, op)
    ensures e' == Then(e, j.job.src[anchor..ip0], offset, matchCode + MINMATCH) && op == op0 + 2 + ExtraBytes(matchCode)
  {
    ghost var literals := j.job.src[anchor..ip0];
    ip := ip0 + MINMATCH + matchCode;
    e' := Then(e, literals, offset, matchCode + MINMATCH);
    MatchFits(j, dst.Length, e, ip0, op0, matchCode, literals, offset);
    op := AppendMatch(j, dst, e, anchor, token, op0, ip0, offset, matchCode, literals);
    LongestThen(j, dst.Length, e, anchor, token, ip0, offset, e', ip, op);
  }

  lemma LongestThen(j: Task, olimit: nat, e: Emitted, anchor: nat, token: nat, ip0: nat, offset: nat, e': Emitted,
        ip: nat, op: nat)
    requires Longest(j, olimit, e, anchor, token) && (j.mode == FillOutput ==> token + 1 + LASTLITERALS < olimit)
    requires anchor <= ip0 <= ip && ip0 + MFLIMIT <= |j.job.src| && 0 < offset <= ip0
    requires StartsThere(j.job.src, ip0, offset, ip0 - anchor) && EndsWell(j, olimit, op, ip, offset)
    requires e' == Then(e, j.job.src[anchor..ip0], offset, ip - ip0)
    ensures Longest(j, olimit, e', ip, op)
  {
    assert Look(e);
  }

  method AppendMatch(j: Task, dst: array<byte>, ghost e: Emitted, anchor: nat, token: nat, op0: nat, ip0: nat,
      offset: nat, matchCode: nat, ghost literals: seq<byte>)
    returns (op: nat)
    requires token < op0 && op0 + 2 <= dst.Length && Sound(j, dst[..token], e, anchor)
    requires anchor <= ip0 && ip0 + MFLIMIT <= |j.job.src| && 0 < offset <= DISTANCE_MAX && offset <= ip0
    requires literals == j.job.src[anchor..ip0] && dst[token..op0] == LiteralBytes(literals, 0)
    requires ip0 + (matchCode + MINMATCH) <= |j.job.src| - LASTLITERALS
    requires forall k :: ip0 <= k < ip0 + (matchCode + MINMATCH) ==> j.job.src[k] == j.job.src[k - offset]
    requires matchCode >= ML_MASK ==> op0 + 2 + (matchCode - ML_MASK) / 255 + 4 <= dst.Length
    modifies dst
    ensures op == op0 + 2 + ExtraBytes(matchCode) <= dst.Length
    ensures Sound(j, dst[..op], Then(e, literals, offset, matchCode + MINMATCH), ip0 + (matchCode + MINMATCH))
  {
    ghost var written := dst[..token];
    op := WriteMatch(dst, token, op0, offset, matchCode, literals);
    SoundThen(j, written, dst[..op], e, anchor, ip0, matchCode + MINMATCH, offset, literals);
  }

  /** A sequence more: literals up to `ip0`, then a match of `length` bytes. */
  lemma SoundThen(j: Task, before: seq<byte>, after: seq<byte>, e: Emitted, anchor: nat, ip0: nat, length: nat,
      offset: nat, literals: seq<byte>)
    requires Sound(j, before, e, anchor) && anchor <= ip0 && ip0 + MFLIMIT <= |j.job.src|
    requires MINMATCH <= length && ip0 + length <= |j.job.src| - LASTLITERALS
    requires 0 < offset <= DISTANCE_MAX && offset <= ip0 && literals == j.job.src[anchor..ip0]
    requires forall k :: ip0 <= k < ip0 + length ==> j.job.src[k] == j.job.src[k - offset]
    requires after == before + SequenceBytes(literals, offset, length)
    ensures Sound(j, after, Then(e, literals, offset, length), ip0 + length)
  {
    assert Look(e);
  }

  /** A match that is not too close to the end of the output. */
  method EncodeFitting(j: Task, dst: array<byte>, table: array<nat>, ghost e: Emitted, anchor: nat, token: nat,
      op0: nat, ip0: nat, offset: nat, filledIp: nat, ghost known: nat, ghost full: nat)
    returns (v: Verdict, ip: nat, op: nat, ghost e': Emitted)
    requires j.job.Valid() && Progress(j, dst, e, anchor, token) && Longest(j, dst.Length, e, anchor, token)
    requires MatchReady(j, table, anchor, ip0, offset, known, filledIp)
    requires token < op0 <= dst.Length && RoomForMatch(j, dst.Length, ip0, op0)
    requires dst[token..op0] == LiteralBytes(j.job.src[anchor..ip0], 0)
    requires j.mode == FillOutput ==> op0 + 2 + 1 + MFLIMIT - MINMATCH <= dst.Length
    requires full == FullLength(j.job.src, ip0, offset)
    modifies dst, table
    ensures v == if j.mode == LimitedOutput && MatchTooLong(j, dst.Length, op0 + 2, full) then GiveUp else GoOn
    ensures v == GoOn ==>
      && ip0 + MINMATCH <= ip <= |j.job.src| - LASTLITERALS && e' == Then(e, j.job.src[anchor..ip0], offset, ip - ip0)
      && Progress(j, dst, e', ip, op) && Longest(j, dst.Length, e', ip, op) && Indexed(j.job, table, ip)
      && Fitted(j, dst.Length, op0 + 2, full, ip - ip0 - MINMATCH) && op == op0 + 2 + ExtraBytes(ip - ip0 - MINMATCH)
    ensures !(j.mode == FillOutput && MatchTooLong(j, dst.Length, op0 + 2, full)) ==> table[..] == old(table[..])
  {
    ip, op, e' := ip0, op0, e;
    var matchCode;
    v, matchCode := SizeMatch(j, table, dst.Length, op + 2, anchor, ip, offset, filledIp, known);
    if v == GoOn {
      ip, op, e' := FinishMatch(j, dst, e, anchor, token, op0, ip0, offset, matchCode);
    }
  }

  /** What becomes of a match of `full` bytes more than the least. */
  function MatchVerdict(j: Task, olimit: nat, op: nat, full: nat): Verdict {
    if j.mode == FillOutput && op + 2 + 1 + MFLIMIT - MINMATCH > olimit then LastRun
    else if j.mode == LimitedOutput && MatchTooLong(j, olimit, op + 2, full) then GiveUp
    else GoOn
  }

  /** Label _next_match: offset, match length and the match half of the token. */
  method EncodeMatch(j: Task, dst: array<byte>, table: array<nat>, ghost e: Emitted, anchor: nat, token: nat, op0: nat,
      ip0: nat, m: nat, filledIp: nat, ghost known: nat)
    returns (v: Verdict, ip: nat, op: nat, ghost e': Emitted, ghost full: nat)
    requires j.job.Valid() && Progress(j, dst, e, anchor, token) && Longest(j, dst.Length, e, anchor, token)
    requires m < ip0 && MatchReady(j, table, anchor, ip0, ip0 - m, known, filledIp)
    requires token < op0 <= dst.Length && RoomForMatch(j, dst.Length, ip0, op0)
    requires dst[token..op0] == LiteralBytes(j.job.src[anchor..ip0], 0)
    modifies dst, table
    ensures full == FullLength(j.job.src, ip0, ip0 - m) && v == MatchVerdict(j, dst.Length, op0, full)
    ensures v == LastRun ==> e' == e && Progress(j, dst, e, anchor, token)
    ensures v == GoOn ==>
      && ip0 + MINMATCH <= ip <= |j.job.src| - LASTLITERALS && e' == Then(e, j.job.src[anchor..ip0], ip0 - m, ip - ip0)
      && Progress(j, dst, e', ip, op) && Longest(j, dst.Length, e', ip, op) && Indexed(j.job, table, ip)
      && Fitted(j, dst.Length, op0 + 2, full, ip - ip0 - MINMATCH)
      && op == op0 + 2 + ExtraBytes(ip - ip0 - MINMATCH)
    ensures !(j.mode == FillOutput && MatchTooLong(j, dst.Length, op0 + 2, full)) ==> table[..] == old(table[..])
  {
    ip, op, e', full := ip0, op0, e, FullLength(j.job.src, ip0, ip0 - m);
    if j.mode == FillOutput && op + 2 + 1 + MFLIMIT - MINMATCH > dst.Length {
      return LastRun, ip, op, e', full;
    }
    v, ip, op, e' := EncodeFitting(j, dst, table, e, anchor, token, op0, ip0, ip0 - m, filledIp, known, full);
  }

  // ---------------------------------------------------------------- the main loop

  /** Holds of everything; a proof mentions it to look into Leads. */
  predicate Aim(goal: Choice) { true }

  /** There is room for all that is chosen: for everything where it has to be unlimited, and with three bytes to
      spare where the output is filled. */
  predicate Roomy(j: Task, olimit: nat, goal: Choice) {
    j.mode == FillOutput ==> goal.anchor <= |j.job.src| && Size(j.job.src, goal) + 3 <= olimit
  }

  predicate TooBig(j: Task, olimit: nat, goal: Choice) {
    goal.anchor <= |j.job.src| && olimit < Size(j.job.src, goal)
  }

  /** From `s` on the compressor comes to `goal`, if there is room. */
  ghost predicate Leads(j: Task, olimit: nat, s: Stage, goal: Choice) {
    forall x {:trigger Aim(x)} :: Aim(x) && x == goal ==>
      1 <= j.acceleration && (Roomy(j, olimit, x) ==> Outcome(j.job, j.acceleration, s) == x)
  }

  lemma LeadsOn(j: Task, olimit: nat, s: Stage, r: Stage, goal: Choice)
    requires 1 <= j.acceleration && Leads(j, olimit, s, goal) && !s.Done? && r == Next(j.job, j.acceleration, s)
    ensures Leads(j, olimit, r, goal)
  {
    assert Aim(goal);
  }

  lemma Unroomy(j: Task, olimit: nat, s: Stage, goal: Choice)
    requires 1 <= j.acceleration && !Roomy(j, olimit, goal)
    ensures Leads(j, olimit, s, goal)
  {
  }

  /** Where the token and the literals in front of a match end. */
  lemma LiteralsEnd(j: Task, written: seq<byte>, run: seq<byte>, e: Emitted, anchor: nat, ip: nat)
    requires Sound(j, written, e, anchor) && anchor <= ip <= |j.job.src|
    requires run == LiteralBytes(j.job.src[anchor..ip], 0)
    ensures |written| == SizeOf(e) && |run| == 1 + ExtraBytes(ip - anchor) + (ip - anchor)
  {
    assert Look(e);
    WrittenSize(e);
    LengthSize(ip - anchor);
    assert |j.job.src[anchor..ip]| == ip - anchor;
  }

  /** A sequence that does not fit makes the whole too big; one that is too close to the end leaves no room. */
  lemma NoFit(j: Task, olimit: nat, t: seq<nat>, e: Emitted, anchor: nat, ip: nat, m: nat, op: nat, goal: Choice)
    requires 1 <= j.acceleration && Leads(j, olimit, AtMatch(t, e, anchor, ip, m), goal)
    requires anchor <= ip && m < ip && ip + MFLIMIT <= |j.job.src|
    requires op == SizeOf(e) + 1 + ExtraBytes(ip - anchor) + (ip - anchor)
    ensures var full := FullLength(j.job.src, ip, ip - m);
      && (MatchVerdict(j, olimit, op, full) == GiveUp ==> TooBig(j, olimit, goal))
      && (MatchVerdict(j, olimit, op, full) == LastRun ==> !Roomy(j, olimit, goal))
      && (j.mode == FillOutput && MatchTooLong(j, olimit, op + 2, full) ==> !Roomy(j, olimit, goal))
    ensures LiteralsTooLong(j, olimit, SizeOf(e), ip - anchor) ==>
      if j.mode == LimitedOutput then TooBig(j, olimit, goal) else !Roomy(j, olimit, goal)
  {
    assert Aim(goal);
    MatchSize(j.job, j.acceleration, t, e, anchor, ip, m);
  }

  lemma MatchDoesNotFit(j: Task, olimit: nat, t: seq<nat>, written: seq<byte>, run: seq<byte>, e: Emitted, anchor: nat,
      ip: nat, m: nat, goal: Choice)
    requires 1 <= j.acceleration && Leads(j, olimit, AtMatch(t, e, anchor, ip, m), goal)
    requires anchor <= ip && m < ip && ip + MFLIMIT <= |j.job.src|
    requires Sound(j, written, e, anchor) && run == LiteralBytes(j.job.src[anchor..ip], 0)
    ensures var op, full := |written| + |run|, FullLength(j.job.src, ip, ip - m);
      && (MatchVerdict(j, olimit, op, full) == GiveUp ==> TooBig(j, olimit, goal))
      && (MatchVerdict(j, olimit, op, full) == LastRun ==> !Roomy(j, olimit, goal))
      && (j.mode == FillOutput && MatchTooLong(j, olimit, op + 2, full) ==> !Roomy(j, olimit, goal))
  {
    LiteralsEnd(j, written, run, e, anchor, ip);
    NoFit(j, olimit, t, e, anchor, ip, m, |written| + |run|, goal);
  }

  /** What stands behind a match that ends at `end` leads to the goal. */
  ghost predicate LeadsBehind(j: Task, olimit: nat, t: seq<nat>, e: Emitted, end: nat, goal: Choice) {
    2 <= end &&
    var behind := FiledBehind(j.job, t, end);
    && (|j.job.src| < end + MFLIMIT ==> Leads(j, olimit, Done(Choice(e, end)), goal))
    && (end + MFLIMIT <= |j.job.src| ==>
          if Hit(j.job, behind, end)
          then Leads(j, olimit, AtMatch(Filed(j.job, behind, end), e, end, end, Candidate(j.job, behind, end)), goal)
          else Leads(j, olimit, AtLiterals(Filed(j.job, behind, end), e, end), goal))
  }

  lemma UnroomyBehind(j: Task, olimit: nat, t: seq<nat>, e: Emitted, end: nat, goal: Choice)
    requires 1 <= j.acceleration && 2 <= end && !Roomy(j, olimit, goal)
    ensures LeadsBehind(j, olimit, t, e, end, goal)
  {
  }

  /** The stages behind a match that is written in full. */
  lemma BehindFull(j: Task, olimit: nat, t: seq<nat>, e: Emitted, anchor: nat, ip: nat, m: nat, end: nat, e': Emitted,
        goal: Choice)
    requires 1 <= j.acceleration && Leads(j, olimit, AtMatch(t, e, anchor, ip, m), goal)
    requires anchor <= ip && m < ip && ip + MFLIMIT <= |j.job.src|
    requires end == ip + MINMATCH + FullLength(j.job.src, ip, ip - m)
    requires e' == Then(e, j.job.src[anchor..ip], ip - m, end - ip)
    ensures LeadsBehind(j, olimit, t, e', end, goal)
  {
    var s, behind := AtMatch(t, e, anchor, ip, m), FiledBehind(j.job, t, end);
    if |j.job.src| < end + MFLIMIT {
      LeadsOn(j, olimit, s, Done(Choice(e', end)), goal);
    } else if Hit(j.job, behind, end) {
      LeadsOn(j, olimit, s, AtMatch(Filed(j.job, behind, end), e', end, end, Candidate(j.job, behind, end)), goal);
    } else {
      LeadsOn(j, olimit, s, AtLiterals(Filed(j.job, behind, end), e', end), goal);
    }
  }

  /** The stages behind a search. */
  lemma BehindSearch(j: Task, olimit: nat, t: seq<nat>, e: Emitted, anchor: nat, p: nat, q: nat, t': seq<nat>,
        ip: nat, m: nat, goal: Choice)
    requires 1 <= j.acceleration && Leads(j, olimit, AtLiterals(t, e, anchor), goal)
    requires Search(j.job, t, anchor + 1, j.acceleration) == Match(p, q, t')
    requires q < p <= |j.job.src| && ip == p - Back(j.job.src, anchor, p, q) && q - m == p - ip
    ensures Leads(j, olimit, AtMatch(t', e, anchor, ip, m), goal)
  {
    LeadsOn(j, olimit, AtLiterals(t, e, anchor), AtMatch(t', e, anchor, ip, m), goal);
  }

  lemma BehindNothing(j: Task, olimit: nat, t: seq<nat>, e: Emitted, anchor: nat, goal: Choice)
    requires 1 <= j.acceleration && Leads(j, olimit, AtLiterals(t, e, anchor), goal)
    requires Search(j.job, t, anchor + 1, j.acceleration) == NoMatch
    ensures Leads(j, olimit, Done(Choice(e, anchor)), goal)
  {
    LeadsOn(j, olimit, AtLiterals(t, e, anchor), Done(Choice(e, anchor)), goal);
  }

  /** The token of a sequence without literals. */
  method EmptyRun(j: Task, dst: array<byte>, ghost e: Emitted, anchor: nat, token: nat)
    requires j.job.Valid() && Progress(j, dst, e, anchor, token) && e.Then? && anchor + MFLIMIT <= |j.job.src|
    modifies dst
    ensures Progress(j, dst, e, anchor, token)
    ensures token < dst.Length && RoomForMatch(j, dst.Length, anchor, token + 1)
    ensures dst[token..token + 1] == LiteralBytes(j.job.src[anchor..anchor], 0)
  {
    ghost var head := dst[..token];
    dst[token] := 0;
    assert dst[..token] == head;
  }

  /** A match at `ip` is to be written: its literals stand behind the token. */
  ghost predicate Ready(j: Task, dst: array<byte>, table: array<nat>, anchor: nat, token: nat, op: nat, ip: nat,
      m: nat, known: nat, filledIp: nat)
    reads dst, table
  {
    && m < ip && MatchReady(j, table, anchor, ip, ip - m, known, filledIp)
    && token < op <= dst.Length && RoomForMatch(j, dst.Length, ip, op)
    && dst[token..op] == LiteralBytes(j.job.src[anchor..ip], 0)
  }

  /** Whether another match follows at once behind one that has been written. */
  method TestBehind(j: Task, dst: array<byte>, table: array<nat>, ghost e: Emitted, anchor: nat, token: nat,
      filledIp: nat, ghost goal: Choice)
    returns (v: Verdict, more: bool, m: nat)
    requires j.job.Valid() && Progress(j, dst, e, anchor, token) && e.Then? && MINMATCH <= anchor
    requires filledIp + MFLIMIT <= |j.job.src| && Indexed(j.job, table, anchor)
    requires LeadsBehind(j, dst.Length, table[..], e, anchor, goal)
    modifies dst, table
    ensures v != GiveUp && Progress(j, dst, e, anchor, token)
    ensures v == GoOn ==> anchor + MFLIMIT <= |j.job.src| && Indexed(j.job, table, anchor + 1)
    ensures more ==>
      && v == GoOn && Ready(j, dst, table, anchor, token, token + 1, anchor, m, anchor, filledIp)
      && Leads(j, dst.Length, AtMatch(table[..], e, anchor, anchor, m), goal)
    ensures v == GoOn && !more ==> Leads(j, dst.Length, AtLiterals(table[..], e, anchor), goal)
    ensures v == LastRun ==> Leads(j, dst.Length, Done(Choice(e, anchor)), goal)
  {
    v, more, m := LastRun, false, 0;
    if anchor < |j.job.src| - MFLIMIT + 1 {
      v := GoOn;
      more, m := TestNext(j.job, table, anchor);
      if more { EmptyRun(j, dst, e, anchor, token); }
    }
  }

  /** One match, and whether another one follows it at once: `token` is then the place of its token. */
  method EncodeAndTest(j: Task, dst: array<byte>, table: array<nat>, ghost e: Emitted, anchor0: nat, token0: nat,
      op0: nat, ip0: nat, m0: nat, filledIp: nat, ghost known: nat, ghost goal: Choice)
    returns (v: Verdict, more: bool, anchor: nat, token: nat, m: nat, ghost e': Emitted)
    requires j.job.Valid() && Progress(j, dst, e, anchor0, token0) && Longest(j, dst.Length, e, anchor0, token0)
    requires Ready(j, dst, table, anchor0, token0, op0, ip0, m0, known, filledIp)
    requires 1 <= j.acceleration && Leads(j, dst.Length, AtMatch(table[..], e, anchor0, ip0, m0), goal)
    modifies dst, table
    ensures v == GiveUp ==> j.mode == LimitedOutput && TooBig(j, dst.Length, goal)
    ensures v != GiveUp ==> Progress(j, dst, e', anchor, token) && Longest(j, dst.Length, e', anchor, token)
    ensures v == GoOn ==>
      ip0 + MINMATCH <= anchor && anchor + MFLIMIT <= |j.job.src| && Indexed(j.job, table, anchor + 1)
    ensures more ==>
      && v == GoOn && Ready(j, dst, table, anchor, token, token + 1, anchor, m, anchor, filledIp)
      && Leads(j, dst.Length, AtMatch(table[..], e', anchor, anchor, m), goal)
    ensures v == GoOn && !more ==> Leads(j, dst.Length, AtLiterals(table[..], e', anchor), goal)
    ensures v == LastRun ==> Leads(j, dst.Length, Done(Choice(e', anchor)), goal)
  {
    more, m, anchor, token := false, m0, anchor0, token0;
    var ip, op;
    ghost var t, full := table[..], 0;
    MatchDoesNotFit(j, dst.Length, t, dst[..token0], dst[token0..op0], e, anchor0, ip0, m0, goal);
    v, ip, op, e', full := EncodeMatch(j, dst, table, e, anchor0, token0, op0, ip0, m0, filledIp, known);
    if v == LastRun { Unroomy(j, dst.Length, Done(Choice(e', anchor)), goal); }
    if v == GoOn {
      anchor, token := ip, op;
      if ip == ip0 + MINMATCH + full {
        BehindFull(j, dst.Length, t, e, anchor0, ip0, m0, ip, e', goal);
      } else {
        UnroomyBehind(j, dst.Length, table[..], e', ip, goal);
      }
      v, more, m := TestBehind(j, dst, table, e', anchor, token, filledIp, goal);
    }
  }

  /** How a round ends: with more to come, with the last literals, or because the output is too small. */
  ghost predicate RoundEnds(j: Task, dst: array<byte>, table: array<nat>, v: Verdict, anchor0: nat, anchor: nat,
      op: nat, e: Emitted, goal: Choice)
    reads dst, table
  {
    match v
    case GiveUp => j.mode == LimitedOutput && TooBig(j, dst.Length, goal)
    case LastRun =>
      && Progress(j, dst, e, anchor, op) && Longest(j, dst.Length, e, anchor, op)
      && Leads(j, dst.Length, Done(Choice(e, anchor)), goal)
    case GoOn =>
      && Progress(j, dst, e, anchor, op) && Longest(j, dst.Length, e, anchor, op)
      && anchor0 < anchor && anchor + MFLIMIT <= |j.job.src| && Indexed(j.job, table, anchor + 1)
      && Leads(j, dst.Length, AtLiterals(table[..], e, anchor), goal)
  }

  /** From label _next_match on, as long as a match follows a match. */
  method EncodeMatches(j: Task, dst: array<byte>, table: array<nat>, ghost e0: Emitted, anchor0: nat, token0: nat,
      op0: nat, ip0: nat, m0: nat, filledIp: nat, ghost goal: Choice)
    returns (v: Verdict, op: nat, anchor: nat, ghost e: Emitted)
    requires j.job.Valid() && Progress(j, dst, e0, anchor0, token0) && Longest(j, dst.Length, e0, anchor0, token0)
    requires Ready(j, dst, table, anchor0, token0, op0, ip0, m0, filledIp, filledIp)
    requires 1 <= j.acceleration && Leads(j, dst.Length, AtMatch(table[..], e0, anchor0, ip0, m0), goal)
    modifies dst, table
    ensures RoundEnds(j, dst, table, v, ip0, anchor, op, e, goal)
  {
    var token: nat, ip: nat, m: nat, known: nat := token0, ip0, m0, filledIp;
    var more := true;
    v, op, anchor, e := GoOn, op0, anchor0, e0;
    while more
      invariant more ==>
        && v == GoOn && ip0 <= ip && Ready(j, dst, table, anchor, token, op, ip, m, known, filledIp)
        && Leads(j, dst.Length, AtMatch(table[..], e, anchor, ip, m), goal)
      invariant v == GiveUp ==> j.mode == LimitedOutput && TooBig(j, dst.Length, goal)
      invariant v != GiveUp ==> Progress(j, dst, e, anchor, token) && Longest(j, dst.Length, e, anchor, token)
      invariant !more && v == GoOn ==>
        && ip0 + MINMATCH <= anchor && anchor + MFLIMIT <= |j.job.src| && Indexed(j.job, table, anchor + 1)
        && Leads(j, dst.Length, AtLiterals(table[..], e, anchor), goal)
      invariant v == LastRun ==> Leads(j, dst.Length, Done(Choice(e, anchor)), goal)
      decreases if more then |j.job.src| - ip + 1 else 0
    {
      v, more, anchor, token, m, e :=
        EncodeAndTest(j, dst, table, e, anchor, token, op, ip, m, filledIp, known, goal);
      ip, known, op := anchor, anchor, token + 1;
    }
    op := token;
  }

  /** The last run of literals; with fillOutput it is cut to what fits. */
  method EncodeLastLiterals(j: Task, dst: array<byte>, ghost e: Emitted, anchor: nat, op0: nat)
    returns (r: nat, consumed: nat)
    requires |j.job.src| <= MAX_INPUT_SIZE && Progress(j, dst, e, anchor, op0) && Longest(j, dst.Length, e, anchor, op0)
    modifies dst
    ensures r <= dst.Length && anchor <= consumed <= |j.job.src|
    ensures r == 0 ==> j.mode == LimitedOutput
    ensures r > 0 ==> IsBlockOf(dst[..r], j.job.src[..consumed])
    ensures r > 0 ==> Greedy(dst[..r], j.job.src, consumed, j.mode == FillOutput)
    ensures AllLegal(e) && Written(e) == old(dst[..op0])
    ensures r > 0 ==> dst[..r] == old(dst[..op0]) + LiteralBytes(j.job.src[anchor..consumed], 0)
    ensures j.mode != FillOutput ==> consumed == |j.job.src|
    ensures j.mode == NotLimited ==> r <= CompressBound(|j.job.src|)
    ensures LastRunFits(j, dst.Length, op0, |j.job.src| - anchor) ==>
      consumed == |j.job.src| && r == op0 + 1 + ExtraBytes(|j.job.src| - anchor) + (|j.job.src| - anchor)
    ensures !LastRunFits(j, dst.Length, op0, |j.job.src| - anchor) ==>
      r == 0 || (j.mode == FillOutput && dst.Length <= r + 1)
    ensures !LastRunFits(j, dst.Length, op0, |j.job.src| - anchor) && j.mode == LimitedOutput ==> r == 0
  {
    NeedsLittle(j, dst[..op0], e, anchor);
    var lastRun := LastRunLength(j, dst.Length, e, anchor, op0);
    r, consumed := 0, |j.job.src|;
    if lastRun.Some? {
      consumed := anchor + lastRun.value;
      r := WriteRest(j, dst, e, anchor, op0, consumed);
    }
  }

  /** Literals that complete the block. */
  method WriteRest(j: Task, dst: array<byte>, ghost e: Emitted, anchor: nat, op0: nat, consumed: nat) returns (r: nat)
    requires Progress(j, dst, e, anchor, op0) && Longest(j, dst.Length, e, anchor, op0)
    requires anchor <= consumed <= |j.job.src| && Needs(e, anchor) <= consumed
    requires op0 + 1 + ExtraBytes(consumed - anchor) + (consumed - anchor) <= dst.Length
    modifies dst
    ensures 0 < r == op0 + 1 + ExtraBytes(consumed - anchor) + (consumed - anchor)
    ensures IsBlockOf(dst[..r], j.job.src[..consumed])
    ensures Greedy(dst[..r], j.job.src, consumed, j.mode == FillOutput)
    ensures dst[..r] == old(dst[..op0]) + LiteralBytes(j.job.src[anchor..consumed], 0)
  {
    ghost var head := dst[..op0];
    r := WriteLastRun(dst, j.job.src, anchor, op0, consumed - anchor);
    Joined(dst[..], 0, op0, r);
    Closed(j, dst.Length, head, dst[..r], e, anchor, op0, consumed);
  }

  lemma NeedsLittle(j: Task, written: seq<byte>, e: Emitted, anchor: nat)
    requires Sound(j, written, e, anchor)
    ensures Needs(e, anchor) <= anchor + 8 && AllLegal(e) && written == Written(e)
  {
    assert Look(e);
    SpellsLegal(e, j.job.src, anchor);
  }

  /** The finished output. */
  lemma Closed(j: Task, olimit: nat, head: seq<byte>, z: seq<byte>, e: Emitted, anchor: nat, op: nat, consumed: nat)
    requires Sound(j, head, e, anchor) && Longest(j, olimit, e, anchor, op)
    requires anchor <= consumed <= |j.job.src| && Needs(e, anchor) <= consumed
    requires z == head + LiteralBytes(j.job.src[anchor..consumed], 0)
    ensures IsBlockOf(z, j.job.src[..consumed]) && Greedy(z, j.job.src, consumed, j.mode == FillOutput)
  {
    assert Look(e);
    Finished(e, j.job.src, anchor, consumed);
    assert GreedyBlock(z, j.job.src, consumed, j.mode == FillOutput, e, anchor);
  }

  /** All that is left of the source fits as literals. */
  predicate LastRunFits(j: Task, olimit: nat, op: nat, n: nat) {
    j.mode == NotLimited || op + n + 1 + (n + 255 - RUN_MASK) / 255 <= olimit
  }

  method LastRunLength(j: Task, olimit: nat, ghost e: Emitted, anchor: nat, op: nat) returns (run: Option<nat>)
    requires |j.job.src| <= MAX_INPUT_SIZE && anchor <= |j.job.src| && Room(j, olimit, e, anchor, op)
    requires Needs(e, anchor) <= |j.job.src| && Needs(e, anchor) <= anchor + 8
    ensures run.None? ==> j.mode == LimitedOutput
    ensures run.Some? ==> Needs(e, anchor) <= anchor + run.value <= |j.job.src|
    ensures run.Some? ==> op + 1 + ExtraBytes(run.value) + run.value <= olimit
    ensures run.Some? && j.mode != FillOutput ==> anchor + run.value == |j.job.src|
    ensures run.Some? && j.mode == NotLimited ==>
      op + 1 + ExtraBytes(run.value) + run.value <= CompressBound(|j.job.src|)
    ensures LastRunFits(j, olimit, op, |j.job.src| - anchor) ==> run == Some(|j.job.src| - anchor)
    ensures !LastRunFits(j, olimit, op, |j.job.src| - anchor) ==>
      if j.mode == LimitedOutput then run.None?
      else j.mode == FillOutput && run.Some? && olimit <= op + 1 + ExtraBytes(run.value) + run.value + 1
  {
    var lastRun: nat := |j.job.src| - anchor;
    if j.mode != NotLimited && op + lastRun + 1 + (lastRun + 255 - RUN_MASK) / 255 > olimit {
      if j.mode == LimitedOutput { return None; }
      LastRunShrinks(olimit - op - 1, lastRun, if Needs(e, anchor) < anchor then 0 else Needs(e, anchor) - anchor);
      lastRun := olimit - op - 1;
      lastRun := lastRun - (lastRun + 256 - RUN_MASK) / 256;
    }
    run := Some(lastRun);
  }

  method WriteLastRun(dst: array<byte>, src: seq<byte>, anchor: nat, op0: nat, lastRun: nat) returns (r: nat)
    requires anchor + lastRun <= |src| && op0 + 1 + ExtraBytes(lastRun) + lastRun <= dst.Length
    modifies dst
    ensures op0 < r == op0 + 1 + ExtraBytes(lastRun) + lastRun <= dst.Length && dst[..op0] == old(dst[..op0])
    ensures dst[op0..r] == LiteralBytes(src[anchor..anchor + lastRun], 0)
  {
    var op := WriteRunHeader(dst, op0, lastRun);
    ghost var head := dst[..];
    CopyIn(dst, op, src, anchor, lastRun);
    assert dst[op0..op] == head[op0..op];
    assert dst[op..op + lastRun] == src[anchor..anchor + lastRun];
    r := op + lastRun;
    Joined(dst[..], op0, op, r);
  }

  lemma LastRunShrinks(room: nat, run: nat, least: nat)
    requires run + (run + 240) / 255 > room && least <= 8 && least <= room
    ensures var n := room - (room + 241) / 256;
      least <= n <= run && n + ExtraBytes(n) <= room <= n + ExtraBytes(n) + 1
  {
  }

  /** The next match behind `anchor`: found at `p` for what stands at `q`, and from its first byte on. */
  method NextMatch(j: Task, table: array<nat>, anchor: nat)
    returns (found: bool, ip: nat, m: nat, filledIp: nat, ghost q: nat)
    requires j.job.Valid() && 1 <= j.acceleration && anchor + MFLIMIT <= |j.job.src|
    requires Indexed(j.job, table, anchor + 1)
    modifies table
    ensures Search(j.job, old(table[..]), anchor + 1, j.acceleration) ==
      if found then Match(filledIp, q, table[..]) else NoMatch
    ensures found ==> m < ip && MatchReady(j, table, anchor, ip, ip - m, filledIp, filledIp)
    ensures found ==> q < filledIp && ip == filledIp - Back(j.job.src, anchor, filledIp, q) && q - m == filledIp - ip
  {
    found, ip, m := FindMatch(j.job, table, anchor + 1, j.acceleration);
    filledIp, q := ip, m;
    if found {
      ip, m := CatchUp(j.job.src, anchor, ip, m);
      assert StartsThere(j.job.src, ip, ip - m, ip - anchor);
      assert MatchReady(j, table, anchor, ip, ip - m, filledIp, filledIp);
    }
  }

  lemma LiteralsDoNotFit(j: Task, olimit: nat, t: seq<nat>, written: seq<byte>, e: Emitted, anchor: nat, ip: nat,
        m: nat, goal: Choice)
    requires 1 <= j.acceleration && Leads(j, olimit, AtMatch(t, e, anchor, ip, m), goal)
    requires anchor <= ip && m < ip && ip + MFLIMIT <= |j.job.src| && Sound(j, written, e, anchor)
    ensures LiteralsTooLong(j, olimit, |written|, ip - anchor) ==>
      if j.mode == LimitedOutput then TooBig(j, olimit, goal) else Leads(j, olimit, Done(Choice(e, anchor)), goal)
  {
    LiteralsEnd(j, written, LiteralBytes(j.job.src[anchor..ip], 0), e, anchor, ip);
    NoFit(j, olimit, t, e, anchor, ip, m, |written| + 1 + ExtraBytes(ip - anchor) + (ip - anchor), goal);
    if !Roomy(j, olimit, goal) { Unroomy(j, olimit, Done(Choice(e, anchor)), goal); }
  }

  /** The literals in front of a match, the match, and those that follow it at once. */
  method EncodeFound(j: Task, dst: array<byte>, table: array<nat>, anchor0: nat, op0: nat, ip: nat, m: nat,
      filledIp: nat, ghost e0: Emitted, ghost goal: Choice)
    returns (v: Verdict, anchor: nat, op: nat, ghost e: Emitted)
    requires j.job.Valid() && 1 <= j.acceleration
    requires Progress(j, dst, e0, anchor0, op0) && Longest(j, dst.Length, e0, anchor0, op0)
    requires m < ip && MatchReady(j, table, anchor0, ip, ip - m, filledIp, filledIp)
    requires Leads(j, dst.Length, AtMatch(table[..], e0, anchor0, ip, m), goal)
    modifies dst, table
    ensures RoundEnds(j, dst, table, v, anchor0, anchor, op, e, goal)
  {
    anchor, op, e := anchor0, op0, e0;
    LiteralsDoNotFit(j, dst.Length, table[..], dst[..op0], e, anchor, ip, m, goal);
    var next;
    v, next := EncodeLiterals(j, dst, e, anchor, ip, op);
    if v == GoOn {
      v, op, anchor, e := EncodeMatches(j, dst, table, e, anchor, op, next, ip, m, filledIp, goal);
    }
  }

  /** One round: the next match behind some literals, and those that follow it at once. */
  method Round(j: Task, dst: array<byte>, table: array<nat>, anchor0: nat, op0: nat, ghost e0: Emitted,
      ghost goal: Choice)
    returns (v: Verdict, anchor: nat, op: nat, ghost e: Emitted)
    requires j.job.Valid() && 1 <= j.acceleration && anchor0 + MFLIMIT <= |j.job.src|
    requires Indexed(j.job, table, anchor0 + 1)
    requires Progress(j, dst, e0, anchor0, op0) && Longest(j, dst.Length, e0, anchor0, op0)
    requires Leads(j, dst.Length, AtLiterals(table[..], e0, anchor0), goal)
    modifies dst, table
    ensures RoundEnds(j, dst, table, v, anchor0, anchor, op, e, goal)
  {
    ghost var t, q := table[..], 0;
    var found, ip, m, filledIp;
    found, ip, m, filledIp, q := NextMatch(j, table, anchor0);
    if found {
      BehindSearch(j, dst.Length, t, e0, anchor0, filledIp, q, table[..], ip, m, goal);
      v, anchor, op, e := EncodeFound(j, dst, table, anchor0, op0, ip, m, filledIp, e0, goal);
    } else {
      BehindNothing(j, dst.Length, t, e0, anchor0, goal);
      v, anchor, op, e := LastRun, anchor0, op0, e0;
    }
  }

  /** All sequences with a match; the last literals follow.  Not `ok` when the output does not fit. */
  method MainLoop(j: Task, dst: array<byte>, table: array<nat>, ghost goal: Choice)
    returns (ok: bool, anchor: nat, op: nat, ghost e: Emitted)
    requires j.job.Valid() && 1 <= j.acceleration && Indexed(j.job, table, 1) && Progress(j, dst, Nothing, 0, 0)
    requires Leads(j, dst.Length, AtLiterals(table[..], Nothing, 0), goal)
    modifies dst, table
    ensures !ok ==> j.mode == LimitedOutput && TooBig(j, dst.Length, goal)
    ensures ok ==> Progress(j, dst, e, anchor, op) && Longest(j, dst.Length, e, anchor, op)
    ensures ok ==> Leads(j, dst.Length, Done(Choice(e, anchor)), goal)
  {
    ok, anchor, op, e := true, 0, 0, Nothing;
    while true
      invariant ok && anchor + MFLIMIT <= |j.job.src|
      invariant Progress(j, dst, e, anchor, op) && Longest(j, dst.Length, e, anchor, op)
      invariant Indexed(j.job, table, anchor + 1) && Leads(j, dst.Length, AtLiterals(table[..], e, anchor), goal)
      decreases |j.job.src| - anchor
    {
      var v;
      v, anchor, op, e := Round(j, dst, table, anchor, op, e, goal);
      if v == GiveUp { ok := false; }
      if v != GoOn { return; }
    }
  }

  /** The output `z` of `r` bytes is what is chosen, if there is room for that, and none if there is not. */
  ghost predicate AsChosen(j: Task, z: seq<byte>, olimit: nat, consumed: nat) {
    1 <= j.acceleration &&
    var g := Chosen(j.job, j.acceleration);
    && (Roomy(j, olimit, g) && (j.mode == NotLimited || Size(j.job.src, g) <= olimit) ==>
          consumed == |j.job.src| && AllLegal(g.e) && z == BlockBytes(j.job.src, g) && |z| == Size(j.job.src, g))
    && (j.mode == LimitedOutput && olimit < Size(j.job.src, g) ==> z == [])
  }

  lemma WholeRest(src: seq<byte>, anchor: nat, consumed: nat)
    requires anchor <= consumed <= |src|
    ensures consumed == |src| ==> src[anchor..consumed] == src[anchor..]
  {
  }

  lemma Reached(j: Task, olimit: nat, c: Choice, goal: Choice)
    requires 1 <= j.acceleration && Leads(j, olimit, Done(c), goal) && Roomy(j, olimit, goal)
    ensures goal == c
  {
    assert Aim(goal);
  }

  /** What the last literals add to the sequences. */
  lemma FinalSize(j: Task, olimit: nat, head: seq<byte>, e: Emitted, anchor: nat)
    requires Sound(j, head, e, anchor)
    ensures var size := Size(j.job.src, Choice(e, anchor));
      && size == |head| + 1 + ExtraBytes(|j.job.src| - anchor) + (|j.job.src| - anchor)
      && (LastRunFits(j, olimit, |head|, |j.job.src| - anchor) <==> j.mode == NotLimited || size <= olimit)
      && |LiteralBytes(j.job.src[anchor..], 0)| == size - |head|
  {
    assert Look(e);
    WrittenSize(e);
    LengthSize(|j.job.src| - anchor);
  }

  /** The last step: what has been chosen is in the output. */
  lemma EndsAsChosen(j: Task, z: seq<byte>, olimit: nat, consumed: nat, head: seq<byte>, e: Emitted, anchor: nat)
    requires 1 <= j.acceleration && Leads(j, olimit, Done(Choice(e, anchor)), Chosen(j.job, j.acceleration))
    requires Sound(j, head, e, anchor) && AllLegal(e) && head == Written(e)
    requires if LastRunFits(j, olimit, |head|, |j.job.src| - anchor)
      then consumed == |j.job.src| && z == head + LiteralBytes(j.job.src[anchor..], 0)
      else j.mode == LimitedOutput ==> z == []
    ensures AsChosen(j, z, olimit, consumed)
  {
    FinalSize(j, olimit, head, e, anchor);
    if Roomy(j, olimit, Chosen(j.job, j.acceleration)) {
      Reached(j, olimit, Choice(e, anchor), Chosen(j.job, j.acceleration));
    }
  }

  /** LZ4_compress_generic_validated.  The table must be cleared: the context is always a fresh one. */
  method CompressValidated(j: Task, dst: array<byte>, table: array<nat>) returns (r: nat, consumed: nat)
    requires (forall s :: j.job.hash(s) < j.job.Slots()) && 0 < |j.job.src| <= MAX_INPUT_SIZE && 1 <= j.acceleration
    requires table.Length == j.job.Slots() && forall h :: 0 <= h < table.Length ==> table[h] == 0
    requires j.mode == NotLimited ==> CompressBound(|j.job.src|) <= dst.Length
    modifies dst, table
    ensures r <= dst.Length && consumed <= |j.job.src|
    ensures r > 0 ==> IsBlockOf(dst[..r], j.job.src[..consumed])
    ensures r > 0 ==> Greedy(dst[..r], j.job.src, consumed, j.mode == FillOutput)
    ensures r > 0 && j.mode != FillOutput ==> consumed == |j.job.src|
    ensures r > 0 && consumed < |j.job.src| ==> dst.Length <= r + 1
    ensures j.mode == NotLimited ==> r <= CompressBound(|j.job.src|)
    ensures r == 0 ==>
      || j.mode == LimitedOutput
      || (j.mode == FillOutput && dst.Length == 0)
      || (j.job.tableType == ByU16 && |j.job.src| >= LIMIT_64K)
    ensures !(j.job.tableType == ByU16 && |j.job.src| >= LIMIT_64K) ==> AsChosen(j, dst[..r], dst.Length, consumed)
  {
    if j.mode == FillOutput && dst.Length < 1 { return 0, 0; }
    if j.job.tableType == ByU16 && |j.job.src| >= LIMIT_64K { return 0, 0; }
    assert dst[..0] == [];
    ghost var goal := Chosen(j.job, j.acceleration);
    if |j.job.src| < MFLIMIT + 1 {
      r, consumed := EncodeLastLiterals(j, dst, Nothing, 0, 0);
      if r > 0 { WholeRest(j.job.src, 0, consumed); }
      EndsAsChosen(j, dst[..r], dst.Length, consumed, [], Nothing, 0);
      return;
    }
    table[j.job.HashPosition(0)] := 0;
    assert table[..] == Cleared(j.job);
    var ok, anchor, op;
    ghost var e;
    ok, anchor, op, e := MainLoop(j, dst, table, goal);
    if !ok { return 0, 0; }
    ghost var head := dst[..op];
    r, consumed := EncodeLastLiterals(j, dst, e, anchor, op);
    if r > 0 { WholeRest(j.job.src, anchor, consumed); }
    EndsAsChosen(j, dst[..r], dst.Length, consumed, head, e, anchor);
  }
}
