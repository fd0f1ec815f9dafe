/** LZ4_decompress_unsafe_generic: the plain decoder that knows the output size but not the input
    size, its exact behaviour as a function, and how it compares with the format. */
module Lz4Reference {
  import opened Wrappers
  import opened Lz4Format
  import opened Lz4Memory

  /** `Overrun` stands for reading past the input, which the caller must rule out. */
  datatype Outcome =
    | Decoded(out: seq<byte>, consumed: nat)
    | Invalid
    | Overrun

  /** The history the reference decoder builds from `ip` on.  `stale` is the output buffer as the
      caller left it, history in front: its length is where the output must end, and a match with
      offset 0 leaves its bytes in place. */
  function RefDecode(src: seq<byte>, ip: nat, out: seq<byte>, stale: seq<byte>): Outcome
    requires |out| <= |stale|
    decreases |src| - ip, 1
  {
    if ip >= |src| then Overrun
    else
      match ReadLength(src, ip + 1, src[ip] / 16)
      case None => Overrun
      case Some(ll) =>
        if |stale| - |out| < ll.value then Invalid
        else if ll.next + ll.value > |src| then Overrun
        else
          var out1 := out + src[ll.next..ll.next + ll.value];
          if |stale| - |out1| < MFLIMIT then
            if |out1| == |stale| then Decoded(out1, ll.next + ll.value) else Invalid
          else RefMatch(src, ll.next + ll.value, src[ip] % 16, out1, stale)
  }

  function RefMatch(src: seq<byte>, ip: nat, nibble: nat, out: seq<byte>, stale: seq<byte>): Outcome
    requires |out| <= |stale|
    decreases |src| - ip, 0
  {
    if ip + 2 > |src| then Overrun
    else
      match ReadLength(src, ip + 2, nibble)
      case None => Overrun
      case Some(ml) =>
        var offset, length := Le16(src, ip), ml.value + MINMATCH;
        if |stale| - |out| < length || offset > |out| then Invalid
        else
          var out1 := Expand(out, offset, length, stale);
          if |stale| - |out1| < LASTLITERALS then Invalid
          else RefDecode(src, ml.next, out1, stale)
  }

  // ---------------------------------------------------------------- the reference and the format

  /** The reference decoder accepts an input as a whole exactly when it conforms to the format, and
      then yields its meaning. */
  lemma {:induction false} ReferenceAcceptsConforming(src: seq<byte>, ip: nat, out: seq<byte>, stale: seq<byte>)
    requires |out| <= |stale|
    ensures var r, b := RefDecode(src, ip, out, stale), Parse(src, ip);
      && (r.Decoded? && r.consumed == |src| <==> Conforming(b, |out|, |stale|))
      && (Conforming(b, |out|, |stale|) ==> Meaning(b.value, out, stale) == Some(r.out))
    decreases |src| - ip, 1
  {
    if ip < |src| && ReadLength(src, ip + 1, src[ip] / 16).Some? {
      var ll := ReadLength(src, ip + 1, src[ip] / 16).value;
      assert Parse(src, ip) == ParseLiterals(src, ll.next, src[ip] % 16, ll.value);
      var i := ll.next + ll.value;
      if i < |src| && |out| + ll.value <= |stale| {
        var literals := src[ll.next..i];
        ReferenceMatchConforming(src, i, src[ip] % 16, out + literals, stale);
        assert (out + literals) + [] == out + literals;
      }
    }
  }

  lemma {:induction false} ReferenceMatchConforming(src: seq<byte>, ip: nat, nibble: nat, out: seq<byte>,
        stale: seq<byte>)
    requires |out| <= |stale|
    ensures var r, b := RefMatch(src, ip, nibble, out, stale), ParseMatch(src, ip, nibble);
      && (|out| + MFLIMIT <= |stale| && r.Decoded? && r.consumed == |src| <==> Conforming(b, |out|, |stale|))
      && (Conforming(b, |out|, |stale|) ==> Meaning(b.value, out, stale) == Some(r.out))
    decreases |src| - ip, 0
  {
    if ip + 2 <= |src| && ReadLength(src, ip + 2, nibble).Some? {
      var ml := ReadLength(src, ip + 2, nibble).value;
      var offset, length := Le16(src, ip), ml.value + MINMATCH;
      assert out + [] == out;
      if Parse(src, ml.next).Some? {
        assert ParseMatch(src, ip, nibble) == Some(Copy([], offset, length, Parse(src, ml.next).value));
      }
      if |out| + length + LASTLITERALS <= |stale| && offset <= |out| {
        ReferenceAcceptsConforming(src, ml.next, Expand(out, offset, length, stale), stale);
      }
    }
  }

  // ---------------------------------------------------------------- the code

  method ReadLongLengthNoCheck(src: seq<byte>, ip0: nat) returns (l: nat, ip: nat)
    requires ReadExtension(src, ip0, 0).Some?
    ensures ReadExtension(src, ip0, 0) == Some(Field(l, ip))
  {
    l, ip := 0, ip0;
    while true
      invariant ReadExtension(src, ip, l) == ReadExtension(src, ip0, 0)
      decreases |src| - ip
    {
      var b: nat := src[ip];
      l, ip := l + b, ip + 1;
      if b != 255 { return; }
    }
  }

  /** A nibble and, when it is saturated, the bytes that extend it. */
  method LengthNoCheck(src: seq<byte>, ip0: nat, nibble: nat) returns (length: nat, ip: nat)
    requires nibble <= 15 && ReadLength(src, ip0, nibble).Some?
    ensures ReadLength(src, ip0, nibble) == Some(Field(length, ip))
  {
    length, ip := nibble, ip0;
    if nibble == RUN_MASK {
      var l;
      ExtensionShift(src, ip, 0, RUN_MASK);
      l, ip := ReadLongLengthNoCheck(src, ip);
      length := length + l;
    }
  }

  /** What the decoder keeps: the buffer behind `op` is untouched. */
  ghost predicate Tracks(dst: array<byte>, low: nat, dict: seq<byte>, op: nat, stale: seq<byte>)
    reads dst
  {
    && low <= op <= dst.Length && |stale| == |dict| + dst.Length - low
    && forall i :: op <= i < dst.Length ==> dst[i] == stale[|dict| + i - low]
  }

  /** The match copy: from the dictionary while it lasts, then byte by byte. */
  method RefCopy(dst: array<byte>, low: nat, dict: seq<byte>, op0: nat, offset: nat, ml0: nat, ghost stale: seq<byte>)
    requires Tracks(dst, low, dict, op0, stale)
    requires op0 + ml0 <= dst.Length && offset <= op0 - low + |dict|
    modifies dst
    ensures forall i :: 0 <= i < op0 ==> dst[i] == old(dst[i])
    ensures Tracks(dst, low, dict, op0 + ml0, stale)
    ensures dict + dst[low..op0 + ml0] == Expand(old(dict + dst[low..op0]), offset, ml0, stale)
  {
    ghost var before := dst[..];
    ghost var n := CopyBytes(dst, low, dict, op0, offset, ml0);
    assert dst[low..op0] == before[low..op0];
    RefContinues(dict, dst[..], low, op0, op0 + ml0, offset, stale, n);
    ExpandUnique(dict + dst[low..op0], offset, dict + dst[low..op0 + ml0], stale);
  }

  method CopyBytes(dst: array<byte>, low: nat, dict: seq<byte>, op0: nat, offset: nat, ml0: nat) returns (ghost n: nat)
    requires low <= op0 && op0 + ml0 <= dst.Length && offset <= op0 - low + |dict|
    modifies dst
    ensures forall i :: 0 <= i < dst.Length && !(op0 <= i < op0 + ml0) ==> dst[i] == old(dst[i])
    ensures n <= ml0 && (n > 0 ==> n <= offset - (op0 - low)) && (n < offset - (op0 - low) ==> n == ml0)
    ensures forall i :: op0 <= i < op0 + n ==> dst[i] == dict[|dict| - (offset - (op0 - low)) + (i - op0)]
    ensures forall i :: op0 + n <= i < op0 + ml0 ==> dst[i] == if offset == 0 then old(dst[i]) else dst[i - offset]
  {
    var op, ml, from := op0, ml0, op0 - offset;
    if offset > op - low {
      var extml := offset - (op - low);
      var extMatch := |dict| - extml;
      if extml > ml {
        CopyIn(dst, op, dict, extMatch, ml);
        op, ml := op + ml, 0;
      } else {
        CopyIn(dst, op, dict, extMatch, extml);
        op, ml := op + extml, ml - extml;
      }
      from := low;
    }
    n := op - op0;
    ghost var mid := dst[..];
    if ml > 0 { ByteLoop(dst, op, from, ml); }
    assert forall i :: op0 <= i < op ==> dst[i] == mid[i];
  }

  /** Byte by byte, so that the copy may read what it has just written. */
  method ByteLoop(dst: array<byte>, op: nat, from: nat, ml: nat)
    requires from <= op && op + ml <= dst.Length
    modifies dst
    ensures forall i :: 0 <= i < dst.Length && !(op <= i < op + ml) ==> dst[i] == old(dst[i])
    ensures forall i :: op <= i < op + ml ==> dst[i] == if from == op then old(dst[i]) else dst[i - (op - from)]
  {
    var u := 0;
    while u < ml
      invariant 0 <= u <= ml
      invariant forall i :: 0 <= i < dst.Length && !(op <= i < op + u) ==> dst[i] == old(dst[i])
      invariant forall i :: op <= i < op + u ==> dst[i] == if from == op then old(dst[i]) else dst[i - (op - from)]
    {
      dst[op + u] := dst[from + u];
      u := u + 1;
    }
  }

  lemma RefContinues(dict: seq<byte>, s: seq<byte>, low: nat, op: nat, end: nat, offset: nat, stale: seq<byte>, n: nat)
    requires low <= op <= op + n <= end <= |s| && offset <= op - low + |dict| && |stale| == |dict| + |s| - low
    requires n > 0 ==> offset > op - low
    requires n < offset - (op - low) ==> op + n == end
    requires n <= offset - (op - low) || n == 0
    requires forall i :: op <= i < op + n ==> s[i] == dict[|dict| - (offset - (op - low)) + (i - op)]
    requires forall i :: op + n <= i < end ==> s[i] == if offset == 0 then stale[|dict| + i - low] else s[i - offset]
    ensures Continues(dict + s[low..op], offset, dict + s[low..end], stale)
  {
    var out, all := dict + s[low..op], dict + s[low..end];
    assert all[..|out|] == out;
    forall k | |out| <= k < |all| ensures all[k] == if offset == 0 then Stale(stale, k) else all[k - offset] {
      var i := low + (k - |dict|);
      assert all[k] == s[i];
      if i < op + n { assert all[k - offset] == dict[k - offset]; }
      else if offset > 0 { assert all[k - offset] == s[i - offset]; }
    }
  }

  /** Literals of one sequence. */
  method RefLiterals(src: seq<byte>, dst: array<byte>, low: nat, dict: seq<byte>, ip: nat, op: nat, ll: nat,
        ghost stale: seq<byte>)
    requires Tracks(dst, low, dict, op, stale)
    requires op + ll <= dst.Length && ip + ll <= |src|
    modifies dst
    ensures forall i :: 0 <= i < op ==> dst[i] == old(dst[i])
    ensures Tracks(dst, low, dict, op + ll, stale)
    ensures dict + dst[low..op + ll] == old(dict + dst[low..op]) + src[ip..ip + ll]
  {
    ghost var out := dict + dst[low..op];
    forall i | op <= i < op + ll { dst[i] := src[ip + (i - op)]; }
    assert dict + dst[low..op + ll] == out + src[ip..ip + ll];
  }

  /** What one sequence, or a part of it, leads to. */
  datatype Step = Bad | Done(ip: nat) | More(ip: nat, op: nat)

  /** A step agrees with the outcome the rest of the input is to have. */
  ghost predicate Agrees(s: Step, goal: Outcome, src: seq<byte>, dst: array<byte>, low: nat, dict: seq<byte>,
        stale: seq<byte>)
    reads dst
  {
    match s
    case Bad => goal == Invalid
    case Done(ip) => low <= dst.Length && goal == Decoded(dict + dst[low..], ip)
    case More(ip, op) =>
      && Tracks(dst, low, dict, op, stale)
      && goal == RefDecode(src, ip, dict + dst[low..op], stale)
  }

  /** The match part of one sequence. */
  method RefMatchPart(src: seq<byte>, dst: array<byte>, low: nat, dict: seq<byte>, ip0: nat, op0: nat, nibble: nat,
      ghost stale: seq<byte>)
    returns (next: Step)
    requires Tracks(dst, low, dict, op0, stale)
    requires nibble <= 15 && RefMatch(src, ip0, nibble, dict + dst[low..op0], stale) != Overrun
    modifies dst
    ensures forall i :: 0 <= i < op0 ==> dst[i] == old(dst[i])
    ensures Agrees(next, RefMatch(src, ip0, nibble, old(dict + dst[low..op0]), stale), src, dst, low, dict, stale)
    ensures next.Bad? || (next.More? && ip0 < next.ip && op0 <= next.op)
  {
    ghost var out := dict + dst[low..op0];
    var ip, op, ml := ip0, op0, 0;
    var offset := Le16(src, ip);
    ip := ip + 2;
    ml, ip := LengthNoCheck(src, ip, nibble);
    ml := ml + MINMATCH;
    if dst.Length - op < ml { return Bad; }
    if offset > op - low + |dict| { return Bad; }
    RefCopy(dst, low, dict, op, offset, ml, stale);
    op := op + ml;
    if dst.Length - op < LASTLITERALS { return Bad; }
    next := More(ip, op);
  }

  /** Token, literals and the end-of-block test of one sequence; `nibble` is the match half. */
  method RefLiteralPart(src: seq<byte>, dst: array<byte>, low: nat, dict: seq<byte>, ip0: nat, op0: nat,
        ghost stale: seq<byte>)
    returns (next: Step, nibble: nat)
    requires Tracks(dst, low, dict, op0, stale)
    requires RefDecode(src, ip0, dict + dst[low..op0], stale) != Overrun
    modifies dst
    ensures forall i :: 0 <= i < op0 ==> dst[i] == old(dst[i])
    ensures nibble <= 15
    ensures var goal := RefDecode(src, ip0, old(dict + dst[low..op0]), stale);
      if next.More? then
        && ip0 < next.ip && op0 <= next.op && Tracks(dst, low, dict, next.op, stale)
        && goal == RefMatch(src, next.ip, nibble, dict + dst[low..next.op], stale)
      else Agrees(next, goal, src, dst, low, dict, stale)
  {
    ghost var out := dict + dst[low..op0];
    var token: nat := src[ip0];
    var ip, op, ll := ip0 + 1, op0, 0;
    nibble := token % 16;
    ll, ip := LengthNoCheck(src, ip, token / 16);
    if dst.Length - op < ll { return Bad, nibble; }
    RefLiterals(src, dst, low, dict, ip, op, ll, stale);
    assert dict + dst[low..op + ll] == out + src[ip..ip + ll];
    ip, op := ip + ll, op + ll;
    if dst.Length - op < MFLIMIT {
      if op == dst.Length {
        assert dst[low..op] == dst[low..];
        return Done(ip), nibble;
      }
      return Bad, nibble;
    }
    next := More(ip, op);
  }

  /** The result is the number of input bytes consumed, or -1. */
  method DecompressUnsafe(src: seq<byte>, dst: array<byte>, start: nat, low: nat, dict: seq<byte>) returns (r: int)
    requires low <= start <= dst.Length
    requires RefDecode(src, 0, dict + dst[low..start], dict + dst[low..]) != Overrun
    modifies dst
    ensures forall i :: 0 <= i < start ==> dst[i] == old(dst[i])
    ensures match RefDecode(src, 0, old(dict + dst[low..start]), old(dict + dst[low..]))
      case Decoded(out, consumed) => r == consumed && dict + dst[low..] == out
      case _ => r == -1
  {
    ghost var stale := dict + dst[low..];
    ghost var goal := RefDecode(src, 0, dict + dst[low..start], stale);
    var s := More(0, start);
    assert Agrees(s, goal, src, dst, low, dict, stale) && goal != Overrun;
    while s.More?
      invariant forall i :: 0 <= i < start ==> dst[i] == old(dst[i])
      invariant Agrees(s, goal, src, dst, low, dict, stale)
      invariant s.More? ==> start <= s.op
      decreases if s.More? then 1 else 0, |src| - if s.More? then s.ip else 0
    {
      var nibble;
      s, nibble := RefLiteralPart(src, dst, low, dict, s.ip, s.op, stale);
      if s.More? {
        s := RefMatchPart(src, dst, low, dict, s.ip, s.op, nibble, stale);
      }
    }
    r := if s.Done? then s.ip else -1;
  }
}
