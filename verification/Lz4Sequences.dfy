/** The sequences of a block without their place in a buffer: what they mean, how long they are, and which of
    them the greedy compressor chooses when there is room for all. */
module Lz4Sequences {
  import opened Wrappers
  import opened Lz4Format
  import opened Lz4Search
  import Lz4Count

  // ---------------------------------------------------------------- what has been written so far

  /** The sequences written so far, last one outermost. */
  datatype Emitted =
    | Nothing
    | Then(before: Emitted, literals: seq<byte>, offset: nat, matchLength: nat)

  /** The block that starts with the sequences written so far and goes on with `b`. */
  function Close(e: Emitted, b: Block): Block {
    match e
    case Nothing => b
    case Then(before, literals, offset, matchLength) => Close(before, Copy(literals, offset, matchLength, b))
  }

  predicate Legal(offset: nat, matchLength: nat) {
    0 < offset <= DISTANCE_MAX && MINMATCH <= matchLength
  }

  /** The sequences written so far stand for `src[..anchor]`. */
  ghost predicate Spells(e: Emitted, src: seq<byte>, anchor: nat) {
    match e
    case Nothing => anchor == 0
    case Then(before, literals, offset, matchLength) =>
      var start := anchor - matchLength;
      && Legal(offset, matchLength) && anchor <= |src|
      && offset <= start && |literals| <= start
      && src[start - |literals|..start] == literals
      && (forall k :: start <= k < anchor ==> src[k] == src[k - offset])
      && Spells(before, src, start - |literals|)
  }

  ghost predicate AllLegal(e: Emitted) {
    e.Nothing? || (Legal(e.offset, e.matchLength) && AllLegal(e.before))
  }

  ghost function SequenceBytes(literals: seq<byte>, offset: nat, matchLength: nat): seq<byte>
    requires Legal(offset, matchLength)
  {
    LiteralBytes(literals, Nibble(matchLength - MINMATCH)) + MatchBytes(offset, matchLength)
  }

  ghost function Written(e: Emitted): seq<byte>
    requires AllLegal(e)
  {
    match e
    case Nothing => []
    case Then(before, literals, offset, matchLength) => Written(before) + SequenceBytes(literals, offset, matchLength)
  }

  /** Shortest output at which the last match keeps its distance from the end. */
  function Needs(e: Emitted, anchor: nat): nat {
    if e.Nothing? then 0
    else if e.matchLength < MFLIMIT - LASTLITERALS && e.matchLength <= anchor then anchor - e.matchLength + MFLIMIT
    else anchor + LASTLITERALS
  }

  lemma {:induction false} SpellsLegal(e: Emitted, src: seq<byte>, anchor: nat)
    requires Spells(e, src, anchor)
    ensures AllLegal(e) && Needs(e, anchor) <= anchor + 8
    decreases e
  {
    if e.Then? { SpellsLegal(e.before, src, anchor - e.matchLength - |e.literals|); }
  }

  lemma {:induction false} CloseSerialize(e: Emitted, b: Block)
    requires AllLegal(e) && Writable(b)
    ensures Writable(Close(e, b)) && Serialize(Close(e, b)) == Written(e) + Serialize(b)
    decreases e
  {
    match e
    case Nothing =>
    case Then(before, literals, offset, matchLength) =>
      var b' := Copy(literals, offset, matchLength, b);
      CloseSerialize(before, b');
      var s := SequenceBytes(literals, offset, matchLength);
      assert Serialize(b') == s + Serialize(b);
      Associates(Written(before), s, Serialize(b));
  }

  lemma Associates(x: seq<byte>, y: seq<byte>, z: seq<byte>)
    ensures x + (y + z) == (x + y) + z
  {
  }

  lemma {:induction false} CloseConforms(e: Emitted, src: seq<byte>, anchor: nat, b: Block, total: nat)
    requires Spells(e, src, anchor) && Conforms(b, anchor, total) && Needs(e, anchor) <= total
    ensures Conforms(Close(e, b), 0, total)
    decreases e
  {
    match e
    case Nothing =>
    case Then(before, literals, offset, matchLength) =>
      var a := anchor - matchLength - |literals|;
      SpellsLegal(before, src, a);
      CloseConforms(before, src, a, Copy(literals, offset, matchLength, b), total);
  }

  lemma {:induction false} CloseMeaning(e: Emitted, src: seq<byte>, anchor: nat, b: Block, stale: seq<byte>)
    requires Spells(e, src, anchor) && anchor <= |src|
    ensures Meaning(Close(e, b), [], stale) == Meaning(b, src[..anchor], stale)
    decreases e
  {
    match e
    case Nothing =>
      assert src[..anchor] == [];
    case Then(before, literals, offset, matchLength) =>
      var start := anchor - matchLength;
      var a := start - |literals|;
      CloseMeaning(before, src, a, Copy(literals, offset, matchLength, b), stale);
      assert src[..a] + literals == src[..start];
      MatchSpells(src, start, offset, anchor, stale);
  }

  lemma MatchSpells(src: seq<byte>, start: nat, offset: nat, end: nat, stale: seq<byte>)
    requires 0 < offset <= start <= end <= |src| && forall k :: start <= k < end ==> src[k] == src[k - offset]
    ensures Expand(src[..start], offset, end - start, stale) == src[..end]
  {
    assert src[..end][..start] == src[..start];
    ExpandUnique(src[..start], offset, src[..end], stale);
  }

  /** The finished output. */
  ghost predicate IsBlockOf(z: seq<byte>, text: seq<byte>) {
    && Conforming(Parse(z, 0), 0, |text|)
    && NoZeroOffset(Parse(z, 0).value)
    && Decode(z, [], []) == Some(text)
    && (text == [] ==> z == [0])
  }

  lemma {:induction false} WritableNoZero(b: Block)
    requires Writable(b)
    ensures NoZeroOffset(b)
  {
    if b.Copy? { WritableNoZero(b.rest); }
  }

  lemma WholeBlock(b: Block, text: seq<byte>)
    requires Writable(b) && Conforms(b, 0, |text|) && Meaning(b, [], []) == Some(text)
    ensures IsBlockOf(Serialize(b), text)
  {
    var z := Serialize(b);
    assert z[0..0 + |z|] == z;
    ParseSerialize(z, 0, b);
    WritableNoZero(b);
    if text == [] { assert b == Last([]) && z == [0]; }
  }

  lemma Finished(e: Emitted, src: seq<byte>, anchor: nat, total: nat)
    requires Spells(e, src, anchor) && AllLegal(e) && anchor <= total <= |src| && Needs(e, anchor) <= total
    ensures IsBlockOf(Written(e) + LiteralBytes(src[anchor..total], 0), src[..total])
  {
    var b := Last(src[anchor..total]);
    CloseSerialize(e, b);
    CloseConforms(e, src, anchor, b, total);
    CloseMeaning(e, src, anchor, b, []);
    LastMeaning(src, anchor, total);
    WholeBlock(Close(e, b), src[..total]);
  }

  lemma LastMeaning(src: seq<byte>, anchor: nat, total: nat)
    requires anchor <= total <= |src|
    ensures Meaning(Last(src[anchor..total]), src[..anchor], []) == Some(src[..total])
  {
    assert src[..anchor] + src[anchor..total] == src[..total];
  }

  // ---------------------------------------------------------------- how long matches are

  /** A match that ends at `end` could not be longer: the last literals begin there, or the next byte differs. */
  predicate StopsThere(src: seq<byte>, end: nat, offset: nat) {
    |src| <= end + LASTLITERALS || (offset <= end && src[end] != src[end - offset])
  }

  /** A match that starts at `start`, behind `n` literals, could not begin earlier. */
  predicate StartsThere(src: seq<byte>, start: nat, offset: nat, n: nat) {
    n == 0 || start <= offset || (0 < start <= |src| && src[start - 1] != src[start - 1 - offset])
  }

  /** No match could be longer at either end, but for the end of the last one if that is `cut`. */
  ghost predicate Maximal(e: Emitted, src: seq<byte>, anchor: nat, cut: bool)
    decreases e
  {
    match e
    case Nothing => true
    case Then(before, literals, offset, matchLength) =>
      && matchLength + |literals| <= anchor
      && (cut || StopsThere(src, anchor, offset))
      && StartsThere(src, anchor - matchLength, offset, |literals|)
      && Maximal(before, src, anchor - matchLength - |literals|, false)
  }

  /** The output is sequences with such matches, and literals behind them. */
  ghost predicate Greedy(z: seq<byte>, src: seq<byte>, consumed: nat, cut: bool) {
    consumed <= |src| && exists e, anchor :: GreedyBlock(z, src, consumed, cut, e, anchor)
  }

  lemma CutAllowed(z: seq<byte>, src: seq<byte>, consumed: nat)
    requires Greedy(z, src, consumed, false)
    ensures Greedy(z, src, consumed, true)
  {
    var e, anchor :| GreedyBlock(z, src, consumed, false, e, anchor);
    assert GreedyBlock(z, src, consumed, true, e, anchor);
  }

  ghost predicate GreedyBlock(z: seq<byte>, src: seq<byte>, consumed: nat, cut: bool, e: Emitted, anchor: nat)
    requires consumed <= |src|
  {
    && anchor <= consumed && Spells(e, src, anchor) && AllLegal(e) && Maximal(e, src, anchor, cut)
    && z == Written(e) + LiteralBytes(src[anchor..consumed], 0)
  }

  /** How far a match goes beyond its first four bytes, as far as the source allows. */
  function FullLength(src: seq<byte>, ip: nat, offset: nat): nat
    requires 0 < offset <= ip && ip + MFLIMIT <= |src|
  {
    Lz4Count.CommonLength(src, ip + MINMATCH, ip - offset + MINMATCH, |src| - LASTLITERALS)
  }

  lemma FullLengthStops(src: seq<byte>, ip: nat, offset: nat)
    requires 0 < offset <= ip && ip + MFLIMIT <= |src|
    ensures ip + MINMATCH + FullLength(src, ip, offset) <= |src| - LASTLITERALS
    ensures StopsThere(src, ip + MINMATCH + FullLength(src, ip, offset), offset)
  {
    var n := FullLength(src, ip, offset);
    Lz4Count.CommonLengthIs(src, ip + MINMATCH, ip - offset + MINMATCH, |src| - LASTLITERALS, n);
  }

  // ---------------------------------------------------------------- how long sequences are

  lemma {:induction false} ExtensionSize(k: nat)
    ensures |Extension(k)| == k / 255 + 1
    decreases k
  {
    if k >= 255 { ExtensionSize(k - 255); }
  }

  /** How many bytes a length takes beside its nibble. */
  function ExtraBytes(n: nat): nat {
    if n < RUN_MASK then 0 else (n - RUN_MASK) / 255 + 1
  }

  lemma LengthSize(n: nat)
    ensures |LengthBytes(n)| == ExtraBytes(n)
  {
    if n >= RUN_MASK { ExtensionSize(n - RUN_MASK); }
  }

  /** What sequences take in the output. */
  function SizeOf(e: Emitted): nat {
    match e
    case Nothing => 0
    case Then(before, literals, offset, matchLength) =>
      SizeOf(before) + 1 + ExtraBytes(|literals|) + |literals| + 2 +
      (if matchLength < MINMATCH then 0 else ExtraBytes(matchLength - MINMATCH))
  }

  lemma {:induction false} WrittenSize(e: Emitted)
    requires AllLegal(e)
    ensures |Written(e)| == SizeOf(e)
    decreases e
  {
    if e.Then? {
      WrittenSize(e.before);
      LengthSize(|e.literals|);
      LengthSize(e.matchLength - MINMATCH);
    }
  }

  // ---------------------------------------------------------------- the greedy choice

  /** The sequences of a whole source, and where its last literals begin. */
  datatype Choice = Choice(e: Emitted, anchor: nat)

  /** The size of the block. */
  function Size(src: seq<byte>, g: Choice): nat
    requires g.anchor <= |src|
  {
    SizeOf(g.e) + 1 + ExtraBytes(|src| - g.anchor) + (|src| - g.anchor)
  }

  /** Where the compressor stands when there is room for everything: behind some sequences and in front of
      literals, at a match of what stands at `m` for `ip`, with literals from `anchor` on before it, or done. */
  datatype Stage =
    | AtLiterals(table: seq<nat>, e: Emitted, anchor: nat)
    | AtMatch(table: seq<nat>, e: Emitted, anchor: nat, ip: nat, m: nat)
    | Done(choice: Choice)

  /** The match that is found is taken, from where it begins. */
  ghost function BehindLiterals(j: Job, acceleration: nat, t: seq<nat>, e: Emitted, anchor: nat): Stage
    requires 1 <= acceleration
  {
    match Search(j, t, anchor + 1, acceleration)
    case NoMatch => Done(Choice(e, anchor))
    case Match(p, m, t') =>
      if !(m < p <= |j.src|) then Done(Choice(e, anchor))
      else
        var n := Back(j.src, anchor, p, m);
        AtMatch(t', e, anchor, p - n, m - n)
  }

  /** The match is as long as it can be; what stands behind it is tried first. */
  ghost function BehindMatch(j: Job, t: seq<nat>, e: Emitted, anchor: nat, ip: nat, m: nat): Stage {
    if !(anchor <= ip && m < ip && ip + MFLIMIT <= |j.src|) then Done(Choice(e, anchor))
    else
      var length := MINMATCH + FullLength(j.src, ip, ip - m);
      var end, e' := ip + length, Then(e, j.src[anchor..ip], ip - m, length);
      if |j.src| < end + MFLIMIT then Done(Choice(e', end))
      else
        var behind := FiledBehind(j, t, end);
        if Hit(j, behind, end) then AtMatch(Filed(j, behind, end), e', end, end, Candidate(j, behind, end))
        else AtLiterals(Filed(j, behind, end), e', end)
  }

  ghost function Next(j: Job, acceleration: nat, s: Stage): (r: Stage)
    requires 1 <= acceleration && !s.Done?
    ensures Weight(j, r) < Weight(j, s)
  {
    match s
    case AtLiterals(t, e, anchor) => BehindLiterals(j, acceleration, t, e, anchor)
    case AtMatch(t, e, anchor, ip, m) => BehindMatch(j, t, e, anchor, ip, m)
  }

  ghost function Weight(j: Job, s: Stage): nat {
    match s
    case AtLiterals(_, _, anchor) => if anchor <= |j.src| then 2 * (|j.src| - anchor) + 2 else 2
    case AtMatch(_, _, anchor, _, _) => if anchor <= |j.src| then 2 * (|j.src| - anchor) + 1 else 1
    case Done(_) => 0
  }

  /** What it comes to. */
  ghost function Outcome(j: Job, acceleration: nat, s: Stage): Choice
    requires 1 <= acceleration
    decreases Weight(j, s)
  {
    if s.Done? then s.choice else Outcome(j, acceleration, Next(j, acceleration, s))
  }

  /** The least that the sequences of a stage can come to, and where their literals begin. */
  ghost predicate AtLeast(j: Job, s: Stage, size: nat) {
    match s
    case AtLiterals(_, e, anchor) => anchor + LASTLITERALS <= |j.src| && size <= SizeOf(e)
    case AtMatch(_, e, anchor, _, _) => anchor + LASTLITERALS <= |j.src| && size <= SizeOf(e)
    case Done(g) => g.anchor + LASTLITERALS <= |j.src| && size <= SizeOf(g.e)
  }

  lemma NextAtLeast(j: Job, acceleration: nat, s: Stage, size: nat)
    requires 1 <= acceleration && !s.Done? && AtLeast(j, s, size)
    ensures AtLeast(j, Next(j, acceleration, s), size)
  {
    if s.AtMatch? && s.m < s.ip && s.ip + MFLIMIT <= |j.src| { FullLengthStops(j.src, s.ip, s.ip - s.m); }
  }

  lemma {:induction false} OutcomeAtLeast(j: Job, acceleration: nat, s: Stage, size: nat)
    requires 1 <= acceleration && AtLeast(j, s, size)
    ensures AtLeast(j, Done(Outcome(j, acceleration, s)), size)
    decreases Weight(j, s)
  {
    if !s.Done? {
      NextAtLeast(j, acceleration, s, size);
      OutcomeAtLeast(j, acceleration, Next(j, acceleration, s), size);
    }
  }

  /** The table of a fresh context. */
  ghost function Cleared(j: Job): (t: seq<nat>)
    ensures |t| == j.Slots() && forall h :: 0 <= h < |t| ==> t[h] == 0
  {
    seq(j.Slots(), _ => 0)
  }

  /** What is chosen for a whole source. */
  ghost function Chosen(j: Job, acceleration: nat): (g: Choice)
    requires 1 <= acceleration
    ensures g.anchor <= |j.src|
  {
    if |j.src| <= MFLIMIT then Choice(Nothing, 0)
    else
      var start := AtLiterals(Cleared(j), Nothing, 0);
      OutcomeAtLeast(j, acceleration, start, 0);
      Outcome(j, acceleration, start)
  }

  /** The bytes of the block. */
  ghost function BlockBytes(src: seq<byte>, g: Choice): seq<byte>
    requires g.anchor <= |src| && AllLegal(g.e)
  {
    Written(g.e) + LiteralBytes(src[g.anchor..], 0)
  }

  /** With a match at `ip` the block takes at least this match, and the last literals. */
  lemma MatchSize(j: Job, acceleration: nat, t: seq<nat>, e: Emitted, anchor: nat, ip: nat, m: nat)
    requires 1 <= acceleration && anchor <= ip && m < ip && ip + MFLIMIT <= |j.src|
    ensures var g := Outcome(j, acceleration, AtMatch(t, e, anchor, ip, m));
      && g.anchor <= |j.src|
      && SizeOf(e) + 1 + ExtraBytes(ip - anchor) + (ip - anchor) + 2 + ExtraBytes(FullLength(j.src, ip, ip - m)) + 6
         <= Size(j.src, g)
  {
    var s, length := AtMatch(t, e, anchor, ip, m), MINMATCH + FullLength(j.src, ip, ip - m);
    FullLengthStops(j.src, ip, ip - m);
    var size := SizeOf(Then(e, j.src[anchor..ip], ip - m, length));
    assert AtLeast(j, Next(j, acceleration, s), size);
    OutcomeAtLeast(j, acceleration, Next(j, acceleration, s), size);
  }

  // ---------------------------------------------------------------- a run of one byte

  predicate Uniform(src: seq<byte>) {
    forall k :: 0 <= k < |src| ==> src[k] == src[0]
  }

  /** What `n` equal bytes are compressed to: a literal, one match, five literals. */
  function RunSize(n: nat): (r: nat)
    ensures r <= n / 255 + 11
  {
    10 + (n + 230) / 255
  }

  /** The second position matches the first, whatever the hash, and the match goes on to the last literals. */
  lemma RunMatches(j: Job, t: seq<nat>, acceleration: nat)
    requires j.Valid() && Uniform(j.src) && t == Cleared(j) && 1 <= acceleration
    ensures Search(j, t, 1, acceleration) == Match(1, 0, Filed(j, t, 1))
    ensures FullLength(j.src, 1, 1) == |j.src| - LASTLITERALS - 1 - MINMATCH
  {
    assert j.src[0..4] == j.src[1..5];
    FirstHit(j, t, 1, acceleration);
    var n := |j.src| - LASTLITERALS - 1 - MINMATCH;
    assert j.src[5..5 + n] == j.src[4..4 + n];
    Lz4Count.CommonLengthIs(j.src, 5, 4, |j.src| - LASTLITERALS, n);
  }

  lemma RunChosen(j: Job, acceleration: nat)
    requires j.Valid() && Uniform(j.src) && 1 <= acceleration
    ensures Chosen(j, acceleration) == Choice(Then(Nothing, j.src[0..1], 1, |j.src| - 6), |j.src| - LASTLITERALS)
    ensures Size(j.src, Chosen(j, acceleration)) == RunSize(|j.src|)
  {
    var t := Cleared(j);
    RunMatches(j, t, acceleration);
    var s := AtLiterals(t, Nothing, 0);
    var s1 := Next(j, acceleration, s);
    assert s1 == AtMatch(Filed(j, t, 1), Nothing, 0, 1, 0);
    assert Next(j, acceleration, s1) ==
      Done(Choice(Then(Nothing, j.src[0..1], 1, |j.src| - 6), |j.src| - LASTLITERALS));
    assert Outcome(j, acceleration, s1) == Next(j, acceleration, s1).choice;
    assert SizeOf(Nothing) == 0 && |j.src[0..1]| == 1;
    assert SizeOf(Then(Nothing, j.src[0..1], 1, |j.src| - 6)) == 4 + ExtraBytes(|j.src| - 10);
  }
}
