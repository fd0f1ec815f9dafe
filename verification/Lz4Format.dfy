/** The LZ4 block format: its grammar, its meaning, and its end-of-block rules.

    The format is defined once here and used by both decoders and by the encoder.  It follows the
    LZ4 Block Format document, section "Parsing restrictions", as the constants of src/lz4.c name it.
 */
module Lz4Format {
  import opened Wrappers

  type byte = x: int | 0 <= x < 256

  const MINMATCH := 4
  const LASTLITERALS := 5
  const MFLIMIT := 12
  const RUN_MASK := 15
  const ML_MASK := 15
  const DISTANCE_MAX := 65535

  /** A block is a list of (literals, match) sequences closed by a run of literals.
      A `Copy` with no literals also stands for a sequence whose literals are already copied. */
  datatype Block =
    | Last(literals: seq<byte>)
    | Copy(literals: seq<byte>, offset: nat, matchLength: nat, rest: Block)

  // ---------------------------------------------------------------- grammar

  /** A decoded length field: its value and the position after it. */
  datatype Field = Field(value: nat, next: nat)

  /** The bytes 255 255 ... b that extend a saturated nibble. */
  function ReadExtension(src: seq<byte>, ip: nat, acc: nat): (r: Option<Field>)
    ensures r.Some? ==> ip < r.value.next <= |src| && acc <= r.value.value
    decreases |src| - ip
  {
    if ip >= |src| then None
    else if src[ip] == 255 then ReadExtension(src, ip + 1, acc + 255)
    else Some(Field(acc + src[ip], ip + 1))
  }

  function ReadLength(src: seq<byte>, ip: nat, nibble: nat): (r: Option<Field>)
    ensures r.Some? ==> ip <= r.value.next && nibble <= r.value.value
    ensures r.Some? && ip <= |src| ==> r.value.next <= |src|
  {
    if nibble < RUN_MASK then Some(Field(nibble, ip)) else ReadExtension(src, ip, nibble)
  }

  lemma {:induction false} ExtensionShift(src: seq<byte>, ip: nat, acc: nat, d: nat)
    ensures var f, g := ReadExtension(src, ip, acc), ReadExtension(src, ip, acc + d);
      if f.Some? then g == Some(Field(f.value.value + d, f.value.next)) else g == None
    decreases |src| - ip
  {
    if ip < |src| && src[ip] == 255 { ExtensionShift(src, ip + 1, acc + 255, d); }
  }

  function Le16(src: seq<byte>, ip: nat): nat
    requires ip + 2 <= |src|
  {
    (src[ip] as int) + 256 * (src[ip + 1] as int)
  }

  /** The block that starts at `ip`, or None when the bytes do not spell one. */
  function Parse(src: seq<byte>, ip: nat): Option<Block>
    decreases |src| - ip, 2
  {
    if ip >= |src| then None
    else
      match ReadLength(src, ip + 1, src[ip] / 16)
      case None => None
      case Some(ll) => ParseLiterals(src, ll.next, src[ip] % 16, ll.value)
  }

  /** Same, from the first of `length` literals on. */
  function ParseLiterals(src: seq<byte>, ip: nat, nibble: nat, length: nat): Option<Block>
    decreases |src| - ip, 1
  {
    if ip + length > |src| then None
    else
      var literals := src[ip..ip + length];
      if ip + length == |src| then Some(Last(literals))
      else
        match ParseMatch(src, ip + length, nibble)
        case Some(Copy(_, offset, matchLength, rest)) => Some(Copy(literals, offset, matchLength, rest))
        case _ => None
  }

  /** Same, from the two offset bytes on. */
  function ParseMatch(src: seq<byte>, ip: nat, nibble: nat): (r: Option<Block>)
    ensures r.Some? ==> r.value.Copy? && r.value.literals == []
    decreases |src| - ip, 0
  {
    if ip + 2 > |src| then None
    else
      match ReadLength(src, ip + 2, nibble)
      case None => None
      case Some(ml) =>
        match Parse(src, ml.next)
        case None => None
        case Some(rest) => Some(Copy([], Le16(src, ip), ml.value + MINMATCH, rest))
  }

  // ---------------------------------------------------------------- meaning

  /** What a match with offset 0 leaves at position `k`: the format forbids it, the decoders differ. */
  function Stale(stale: seq<byte>, k: nat): byte {
    if k < |stale| then stale[k] else 0
  }

  /** The one-byte-at-a-time match copy. */
  function Expand(out: seq<byte>, offset: nat, n: nat, stale: seq<byte>): (r: seq<byte>)
    requires offset <= |out|
    ensures |r| == |out| + n && r[..|out|] == out
    decreases n
  {
    if n == 0 then out
    else
      var b := if offset == 0 then Stale(stale, |out|) else out[|out| - offset];
      Expand(out + [b], offset, n - 1, stale)
  }

  /** The history after the block, or None when a match reaches before the history. */
  function Meaning(b: Block, out: seq<byte>, stale: seq<byte>): (r: Option<seq<byte>>)
    ensures r.Some? ==> out <= r.value
    decreases b
  {
    match b
    case Last(literals) => Some(out + literals)
    case Copy(literals, offset, matchLength, rest) =>
      if offset > |out + literals| then None
      else Meaning(rest, Expand(out + literals, offset, matchLength, stale), stale)
  }

  /** The history after decoding `src`: `out` is the prefix or dictionary. */
  function Decode(src: seq<byte>, out: seq<byte>, stale: seq<byte>): (r: Option<seq<byte>>)
    ensures r.Some? ==> out <= r.value
  {
    match Parse(src, 0)
    case None => None
    case Some(b) => Meaning(b, out, stale)
  }

  /** The parsing restrictions for a block whose output ends at `total`: the last match starts at
      least MFLIMIT bytes and ends at least LASTLITERALS bytes before the end, and every match
      stays within the `n` bytes of history. */
  predicate Conforms(b: Block, n: nat, total: nat)
    decreases b
  {
    match b
    case Last(literals) => n + |literals| == total
    case Copy(literals, offset, matchLength, rest) =>
      var start := n + |literals|;
      && offset <= start
      && start + MFLIMIT <= total
      && start + matchLength + LASTLITERALS <= total
      && Conforms(rest, start + matchLength, total)
  }

  predicate Conforming(b: Option<Block>, n: nat, total: nat) {
    b.Some? && Conforms(b.value, n, total)
  }

  /** No match has the offset the format reserves. */
  predicate NoZeroOffset(b: Block) {
    match b
    case Last(_) => true
    case Copy(_, offset, _, rest) => offset > 0 && NoZeroOffset(rest)
  }

  // ---------------------------------------------------------------- properties of the copy

  /** `s` continues `out` the way a match at distance `offset` does. */
  ghost predicate Continues(out: seq<byte>, offset: nat, s: seq<byte>, stale: seq<byte>)
  {
    && |out| <= |s|
    && s[..|out|] == out
    && offset <= |out|
    && forall k :: |out| <= k < |s| ==> s[k] == if offset == 0 then Stale(stale, k) else s[k - offset]
  }

  /** The byte loop is the only sequence that repeats at distance `offset`. */
  lemma {:induction false} ExpandUnique(out: seq<byte>, offset: nat, s: seq<byte>, stale: seq<byte>)
    requires Continues(out, offset, s, stale)
    ensures s == Expand(out, offset, |s| - |out|, stale)
    decreases |s| - |out|
  {
    if |s| > |out| {
      var b := if offset == 0 then Stale(stale, |out|) else out[|out| - offset];
      assert s[|out|] == b;
      assert s[..|out| + 1] == out + [b];
      ExpandUnique(out + [b], offset, s, stale);
    } else {
      assert s == out;
    }
  }

  lemma {:induction false} ExpandContinues(out: seq<byte>, offset: nat, n: nat, stale: seq<byte>)
    requires offset <= |out|
    ensures Continues(out, offset, Expand(out, offset, n, stale), stale)
    decreases n
  {
    if n > 0 {
      var b := if offset == 0 then Stale(stale, |out|) else out[|out| - offset];
      var out' := out + [b];
      var s := Expand(out, offset, n, stale);
      ExpandContinues(out', offset, n - 1, stale);
      assert s == Expand(out', offset, n - 1, stale);
      assert s[|out|] == s[..|out'|][|out|] == b;
      forall k | |out| <= k < |s| ensures s[k] == if offset == 0 then Stale(stale, k) else s[k - offset] {
        if k == |out| {
          if offset > 0 { assert s[k - offset] == s[..|out|][k - offset]; }
        }
      }
    }
  }

  /** No match with offset 0 lies over a stale byte that is not zero. */
  predicate CleanBeneath(b: Block, n: nat, stale: seq<byte>) {
    match b
    case Last(_) => true
    case Copy(literals, offset, matchLength, rest) =>
      var start := n + |literals|;
      && (offset == 0 ==> forall k :: start <= k < start + matchLength ==> Stale(stale, k) == 0)
      && CleanBeneath(rest, start + matchLength, stale)
  }

  /** The stale bytes of the buffer show in the meaning of a block exactly when a match with offset 0
      lies over one that is not zero. */
  lemma {:induction false} StaleShows(b: Block, out: seq<byte>, stale: seq<byte>)
    requires Meaning(b, out, stale).Some?
    ensures Meaning(b, out, stale) == Meaning(b, out, []) <==> CleanBeneath(b, |out|, stale)
    decreases b
  {
    match b
    case Last(_) =>
    case Copy(literals, offset, matchLength, rest) =>
      var o := out + literals;
      var u := Expand(o, offset, matchLength, stale);
      MatchShowsStale(o, offset, matchLength, stale);
      if u != Expand(o, offset, matchLength, []) {
        DifferentOutputs(rest, u, Expand(o, offset, matchLength, []), stale);
      } else {
        StaleShows(rest, u, stale);
      }
  }

  /** One match shows stale bytes exactly when it has offset 0 and lies over one that is not zero. */
  lemma MatchShowsStale(out: seq<byte>, offset: nat, n: nat, stale: seq<byte>)
    requires offset <= |out|
    ensures Expand(out, offset, n, stale) == Expand(out, offset, n, []) <==>
      (offset == 0 ==> forall k :: |out| <= k < |out| + n ==> Stale(stale, k) == 0)
  {
    var u, v := Expand(out, offset, n, stale), Expand(out, offset, n, []);
    ExpandContinues(out, offset, n, stale);
    ExpandContinues(out, offset, n, []);
    if offset > 0 || forall k :: |out| <= k < |out| + n ==> Stale(stale, k) == 0 {
      assert Continues(out, offset, u, []);
      ExpandUnique(out, offset, u, []);
    } else {
      var k :| |out| <= k < |out| + n && Stale(stale, k) != 0;
      assert u[k] != v[k];
    }
  }

  lemma DifferentOutputs(b: Block, u: seq<byte>, v: seq<byte>, stale: seq<byte>)
    requires |u| == |v| && u != v
    ensures Meaning(b, u, stale).Some? ==> Meaning(b, u, stale) != Meaning(b, v, [])
  {
    if Meaning(b, u, stale).Some? && Meaning(b, v, []).Some? {
      assert Meaning(b, u, stale).value[..|u|] == u && Meaning(b, v, []).value[..|u|] == v;
    }
  }

  lemma {:induction false} NoZeroIsClean(b: Block, n: nat, stale: seq<byte>)
    requires NoZeroOffset(b)
    ensures CleanBeneath(b, n, stale)
    decreases b
  {
    if b.Copy? { NoZeroIsClean(b.rest, n + |b.literals| + b.matchLength, stale); }
  }

  /** More history in front changes nothing for a block that never reaches it. */
  lemma {:induction false} MoreHistory(b: Block, x: seq<byte>, out: seq<byte>)
    requires Meaning(b, out, []).Some?
    ensures Meaning(b, x + out, []) == Some(x + Meaning(b, out, []).value)
    decreases b
  {
    match b
    case Last(literals) =>
      assert (x + out) + literals == x + (out + literals);
    case Copy(literals, offset, matchLength, rest) =>
      assert (x + out) + literals == x + (out + literals);
      MoreHistoryMatch(x, out + literals, offset, matchLength);
      MoreHistory(rest, x, Expand(out + literals, offset, matchLength, []));
  }

  lemma MoreHistoryMatch(x: seq<byte>, out: seq<byte>, offset: nat, n: nat)
    requires offset <= |out|
    ensures Expand(x + out, offset, n, []) == x + Expand(out, offset, n, [])
  {
    var u := Expand(out, offset, n, []);
    var s := x + u;
    ExpandContinues(out, offset, n, []);
    assert s[..|x + out|] == x + u[..|out|];
    forall k | |x + out| <= k < |s| ensures s[k] == if offset == 0 then Stale([], k) else s[k - offset] {
      assert s[k] == u[k - |x|];
    }
    ExpandUnique(x + out, offset, s, []);
  }

  /** A conforming block always has a meaning, and `total` is its exact length. */
  lemma {:induction false} ConformingHasMeaning(b: Block, out: seq<byte>, total: nat, stale: seq<byte>)
    requires Conforms(b, |out|, total)
    ensures Meaning(b, out, stale).Some? && |Meaning(b, out, stale).value| == total
    decreases b
  {
    match b
    case Last(_) =>
    case Copy(literals, offset, matchLength, rest) =>
      ConformingHasMeaning(rest, Expand(out + literals, offset, matchLength, stale), total, stale);
  }

  /** No match reaches further back than two bytes can say. */
  predicate WithinReach(b: Block) {
    match b
    case Last(_) => true
    case Copy(_, offset, _, rest) => offset <= DISTANCE_MAX && WithinReach(rest)
  }

  lemma {:induction false} ParsedWithinReach(src: seq<byte>, ip: nat)
    requires Parse(src, ip).Some?
    ensures WithinReach(Parse(src, ip).value)
    decreases |src| - ip
  {
    var ll := ReadLength(src, ip + 1, src[ip] / 16).value;
    assert Parse(src, ip) == ParseLiterals(src, ll.next, src[ip] % 16, ll.value);
    var i := ll.next + ll.value;
    if i < |src| {
      var ml := ReadLength(src, i + 2, src[ip] % 16).value;
      assert ParseMatch(src, i, src[ip] % 16).value.rest == Parse(src, ml.next).value;
      ParsedWithinReach(src, ml.next);
    }
  }

  /** History out of reach of every offset does not matter to the parsing restrictions. */
  lemma {:induction false} ShorterHistory(b: Block, n: nat, total: nat, d: nat)
    requires WithinReach(b) && d + DISTANCE_MAX <= n && Conforms(b, n, total)
    ensures d <= total && Conforms(b, n - d, total - d)
    decreases b
  {
    if b.Copy? { ShorterHistory(b.rest, n + |b.literals| + b.matchLength, total, d); }
  }

  // ---------------------------------------------------------------- offset 0

  /** A block with the offset the format reserves: twelve bytes, the first four from offset 0. */
  function ZeroOffsetBlock(literals: seq<byte>): Block {
    Copy([], 0, 4, Last(literals))
  }

  lemma ZeroOffsetBytes(z: seq<byte>, literals: seq<byte>)
    requires |literals| == 8 && z == [0, 0, 0, 128] + literals
    ensures Parse(z, 0) == Some(ZeroOffsetBlock(literals))
  {
    ParseToken(z, 3, 8, 0, Field(8, 4));
    assert z[4..12] == literals;
    assert Parse(z, 3) == Some(Last(literals));
    assert ParseMatch(z, 1, 0) == Some(Copy([], 0, 4, Last(literals)));
    ParseToken(z, 0, 0, 0, Field(0, 1));
    assert z[1..1] == [];
  }

  /** It conforms, and what the buffer held shows in its meaning. */
  lemma ZeroOffsetShows(literals: seq<byte>, stale: seq<byte>)
    requires |literals| == 8 && |stale| == 12 && stale[0] != 0
    ensures Conforms(ZeroOffsetBlock(literals), 0, 12)
    ensures Meaning(ZeroOffsetBlock(literals), [], stale).Some?
    ensures Meaning(ZeroOffsetBlock(literals), [], stale) != Meaning(ZeroOffsetBlock(literals), [], [])
  {
    var b := ZeroOffsetBlock(literals);
    ConformingHasMeaning(b, [], 12, stale);
    assert Stale(stale, 0) != 0;
    assert !CleanBeneath(b, 0, stale);
    StaleShows(b, [], stale);
  }

  // ---------------------------------------------------------------- the writer's side

  function Extension(k: nat): seq<byte> {
    if k < 255 then [k] else [255] + Extension(k - 255)
  }

  function LengthBytes(n: nat): seq<byte> {
    if n < RUN_MASK then [] else Extension(n - RUN_MASK)
  }

  function Nibble(n: nat): (r: nat)
    ensures r <= 15
  {
    if n < RUN_MASK then n else RUN_MASK
  }

  function LiteralBytes(literals: seq<byte>, matchNibble: nat): seq<byte>
    requires matchNibble <= 15
  {
    [Nibble(|literals|) * 16 + matchNibble] + LengthBytes(|literals|) + literals
  }

  function MatchBytes(offset: nat, matchLength: nat): seq<byte>
    requires offset <= DISTANCE_MAX && MINMATCH <= matchLength
  {
    [offset % 256, offset / 256] + LengthBytes(matchLength - MINMATCH)
  }

  predicate Writable(b: Block) {
    match b
    case Last(_) => true
    case Copy(_, offset, matchLength, rest) =>
      0 < offset <= DISTANCE_MAX && MINMATCH <= matchLength && Writable(rest)
  }

  function Serialize(b: Block): seq<byte>
    requires Writable(b)
  {
    match b
    case Last(literals) => LiteralBytes(literals, 0)
    case Copy(literals, offset, matchLength, rest) =>
      LiteralBytes(literals, Nibble(matchLength - MINMATCH)) + MatchBytes(offset, matchLength) + Serialize(rest)
  }

  /** `w` stands in `src` at position `ip`. */
  ghost predicate At(src: seq<byte>, ip: nat, w: seq<byte>) {
    ip + |w| <= |src| && src[ip..ip + |w|] == w
  }

  lemma AtSplit(src: seq<byte>, ip: nat, u: seq<byte>, v: seq<byte>)
    requires At(src, ip, u + v)
    ensures At(src, ip, u) && At(src, ip + |u|, v)
  {
    var w := u + v;
    assert src[ip..ip + |u|] == src[ip..ip + |w|][..|u|] == w[..|u|];
    assert src[ip + |u|..ip + |u| + |v|] == src[ip..ip + |w|][|u|..] == w[|u|..];
  }

  lemma {:induction false} ReadExtensionInverse(src: seq<byte>, ip: nat, k: nat, acc: nat)
    requires At(src, ip, Extension(k))
    ensures ReadExtension(src, ip, acc) == Some(Field(acc + k, ip + |Extension(k)|))
    decreases k
  {
    if k < 255 {
      AtSplit(src, ip, [k], []);
      assert src[ip] == src[ip..ip + 1][0];
    } else {
      AtSplit(src, ip, [255], Extension(k - 255));
      assert src[ip] == src[ip..ip + 1][0];
      ReadExtensionInverse(src, ip + 1, k - 255, acc + 255);
    }
  }

  lemma ReadLengthInverse(src: seq<byte>, ip: nat, n: nat)
    requires At(src, ip, LengthBytes(n))
    ensures ReadLength(src, ip, Nibble(n)) == Some(Field(n, ip + |LengthBytes(n)|))
  {
    if n >= RUN_MASK { ReadExtensionInverse(src, ip, n - RUN_MASK, RUN_MASK); }
  }

  /** Token, length bytes and literals, one behind the other. */
  lemma AtLiterals(src: seq<byte>, ip: nat, literals: seq<byte>, nibble: nat)
    requires nibble <= 15 && At(src, ip, LiteralBytes(literals, nibble))
    ensures At(src, ip, [Nibble(|literals|) * 16 + nibble]) && At(src, ip + 1, LengthBytes(|literals|))
    ensures At(src, ip + 1 + |LengthBytes(|literals|)|, literals)
  {
    var token, m := [Nibble(|literals|) * 16 + nibble], LengthBytes(|literals|);
    AtSplit(src, ip, token + m, literals);
    AtSplit(src, ip, token, m);
  }

  /** Reads back a token, its length bytes and its literals. */
  lemma ParseLiteralBytes(src: seq<byte>, ip: nat, literals: seq<byte>, nibble: nat)
    requires nibble <= 15
    requires At(src, ip, LiteralBytes(literals, nibble))
    ensures var j := ip + 1 + |LengthBytes(|literals|)|;
      && At(src, j, literals)
      && Parse(src, ip) == ParseLiterals(src, j, nibble, |literals|)
  {
    AtLiterals(src, ip, literals, nibble);
    FirstByte(src, ip, [Nibble(|literals|) * 16 + nibble]);
    ReadLengthInverse(src, ip + 1, |literals|);
    ParseToken(src, ip, Nibble(|literals|), nibble, Field(|literals|, ip + 1 + |LengthBytes(|literals|)|));
  }

  lemma ParseToken(src: seq<byte>, ip: nat, high: nat, low: nat, f: Field)
    requires ip < |src| && src[ip] == high * 16 + low && low <= 15 && ReadLength(src, ip + 1, high) == Some(f)
    ensures Parse(src, ip) == ParseLiterals(src, f.next, low, f.value)
  {
    TokenParts(high, low);
  }

  lemma FirstByte(src: seq<byte>, ip: nat, w: seq<byte>)
    requires At(src, ip, w) && |w| > 0
    ensures src[ip] == w[0]
  {
    assert src[ip] == src[ip..ip + |w|][0];
  }

  lemma TokenParts(high: nat, low: nat)
    requires low <= 15
    ensures (high * 16 + low) / 16 == high && (high * 16 + low) % 16 == low
  {
  }

  lemma ParseMatchBytes(src: seq<byte>, ip: nat, offset: nat, matchLength: nat)
    requires offset <= DISTANCE_MAX && MINMATCH <= matchLength
    requires At(src, ip, MatchBytes(offset, matchLength))
    ensures ip + 2 <= |src| && Le16(src, ip) == offset
    ensures ReadLength(src, ip + 2, Nibble(matchLength - MINMATCH))
         == Some(Field(matchLength - MINMATCH, ip + |MatchBytes(offset, matchLength)|))
  {
    var w := [offset % 256, offset / 256];
    AtSplit(src, ip, w, LengthBytes(matchLength - MINMATCH));
    OffsetBytes(src, ip, offset);
    ReadLengthInverse(src, ip + 2, matchLength - MINMATCH);
  }

  lemma OffsetBytes(src: seq<byte>, ip: nat, offset: nat)
    requires offset <= DISTANCE_MAX && At(src, ip, [offset % 256, offset / 256])
    ensures ip + 2 <= |src| && Le16(src, ip) == offset
  {
    assert src[ip] == src[ip..ip + 2][0] && src[ip + 1] == src[ip..ip + 2][1];
  }

  lemma ParseMatchStep(src: seq<byte>, ip: nat, offset: nat, matchLength: nat, rest: Block)
    requires offset <= DISTANCE_MAX && MINMATCH <= matchLength
    requires At(src, ip, MatchBytes(offset, matchLength))
    requires Parse(src, ip + |MatchBytes(offset, matchLength)|) == Some(rest)
    ensures ParseMatch(src, ip, Nibble(matchLength - MINMATCH)) == Some(Copy([], offset, matchLength, rest))
  {
    ParseMatchBytes(src, ip, offset, matchLength);
  }

  lemma ParseLiteralsStep(src: seq<byte>, ip: nat, literals: seq<byte>, nibble: nat, b: Block)
    requires At(src, ip, literals) && ip + |literals| < |src|
    requires ParseMatch(src, ip + |literals|, nibble) == Some(b)
    ensures ParseLiterals(src, ip, nibble, |literals|) == Some(Copy(literals, b.offset, b.matchLength, b.rest))
  {
  }

  lemma ParseCopyBytes(src: seq<byte>, ip: nat, literals: seq<byte>, offset: nat, matchLength: nat, rest: Block)
    requires offset <= DISTANCE_MAX && MINMATCH <= matchLength
    requires At(src, ip, LiteralBytes(literals, Nibble(matchLength - MINMATCH)))
    requires var j := ip + |LiteralBytes(literals, Nibble(matchLength - MINMATCH))|;
      && At(src, j, MatchBytes(offset, matchLength))
      && Parse(src, j + |MatchBytes(offset, matchLength)|) == Some(rest)
    ensures Parse(src, ip) == Some(Copy(literals, offset, matchLength, rest))
  {
    var nibble := Nibble(matchLength - MINMATCH);
    var i := ip + 1 + |LengthBytes(|literals|)|;
    ParseMatchStep(src, i + |literals|, offset, matchLength, rest);
    ParseLiteralBytes(src, ip, literals, nibble);
    ParseLiteralsStep(src, i, literals, nibble, Copy([], offset, matchLength, rest));
  }

  /** The grammar reads back exactly what the writer's side of it wrote. */
  lemma {:induction false} ParseSerialize(src: seq<byte>, ip: nat, b: Block)
    requires Writable(b)
    requires At(src, ip, Serialize(b)) && ip + |Serialize(b)| == |src|
    ensures Parse(src, ip) == Some(b)
    decreases b
  {
    match b
    case Last(literals) =>
      ParseLiteralBytes(src, ip, literals, 0);
    case Copy(literals, offset, matchLength, rest) =>
      var nibble := Nibble(matchLength - MINMATCH);
      var w, m := LiteralBytes(literals, nibble), MatchBytes(offset, matchLength);
      AtSplit(src, ip, w + m, Serialize(rest));
      AtSplit(src, ip, w, m);
      ParseSerialize(src, ip + |w| + |m|, rest);
      ParseCopyBytes(src, ip, literals, offset, matchLength, rest);
  }
}
