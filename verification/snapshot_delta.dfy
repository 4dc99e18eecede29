/**
  The snapshot delta codec: a patch is a list of (skip: u32, copy: u32, copied bytes) triples that
  turns a baseline buffer into the current one.
 */
module SnapshotDelta {
  import opened Bytes

  // ---------------------------------------------------------------- encoder

  /** End of the run starting at `i` whose bytes are all equal (or all different) in the two buffers. */
  function RunEnd(baseline: seq<Byte>, current: seq<Byte>, i: nat, equal: bool): (j: nat)
    requires |baseline| == |current| && i <= |current|
    ensures i <= j <= |current|
    ensures forall k :: i <= k < j ==> (current[k] == baseline[k]) == equal
    ensures j < |current| ==> (current[j] == baseline[j]) != equal
    decreases |current| - i
  {
    if i < |current| && (current[i] == baseline[i]) == equal then RunEnd(baseline, current, i + 1, equal) else i
  }

  lemma RunEndIs(baseline: seq<Byte>, current: seq<Byte>, i: nat, equal: bool, j: nat)
    requires |baseline| == |current| && i <= j <= |current|
    requires forall k :: i <= k < j ==> (current[k] == baseline[k]) == equal
    requires j < |current| ==> (current[j] == baseline[j]) != equal
    ensures RunEnd(baseline, current, i, equal) == j
  {
  }

  /** The triple for one skip run and the copy run after it; lengths are truncated to 32 bits. */
  function Triple(current: seq<Byte>, i: nat, copyStart: nat, end: nat): (t: seq<Byte>)
    requires i <= copyStart <= end <= |current|
    ensures |t| == 8 + AsU32(end - copyStart)
  {
    U32(AsU32(copyStart - i)) + U32(AsU32(end - copyStart))
    + current[copyStart..copyStart + AsU32(end - copyStart)]
  }

  function PatchFrom(baseline: seq<Byte>, current: seq<Byte>, i: nat): (patch: seq<Byte>)
    requires |baseline| == |current| && i <= |current|
    decreases |current| - i
  {
    if i == |current| then []
    else
      var copyStart := RunEnd(baseline, current, i, true);
      var end := RunEnd(baseline, current, copyStart, false);
      Triple(current, i, copyStart, end) + PatchFrom(baseline, current, end)
  }

  function Encode(baseline: seq<Byte>, current: seq<Byte>): (patch: seq<Byte>) {
    if |baseline| != |current| then [] else PatchFrom(baseline, current, 0)
  }

  lemma PatchUnfolds(baseline: seq<Byte>, current: seq<Byte>, i: nat)
    requires |baseline| == |current| && i < |current|
    ensures var copyStart := RunEnd(baseline, current, i, true);
            var end := RunEnd(baseline, current, copyStart, false);
            i < end && PatchFrom(baseline, current, i)
                    == Triple(current, i, copyStart, end) + PatchFrom(baseline, current, end)
  {
    hide Triple;
  }

  lemma NothingLeft(baseline: seq<Byte>, current: seq<Byte>)
    requires |baseline| == |current|
    ensures PatchFrom(baseline, current, |current|) == []
  {
  }

  /** Writing the triple of two runs. */
  lemma EncodeStep(baseline: seq<Byte>, current: seq<Byte>, patch: seq<Byte>, i: nat, copyStart: nat, end: nat)
    requires |baseline| == |current| && i <= copyStart <= end <= |current| && i < |current|
    requires forall k :: i <= k < copyStart ==> current[k] == baseline[k]
    requires copyStart < |current| ==> current[copyStart] != baseline[copyStart]
    requires forall k :: copyStart <= k < end ==> current[k] != baseline[k]
    requires end < |current| ==> current[end] == baseline[end]
    ensures i < end
    ensures var copyLen := AsU32(end - copyStart);
            patch + PatchFrom(baseline, current, i)
            == patch + U32(AsU32(copyStart - i)) + U32(copyLen) + current[copyStart..copyStart + copyLen]
               + PatchFrom(baseline, current, end)
  {
    hide U32, AsU32, RunEnd, PatchFrom;
    var copyLen := AsU32(end - copyStart);
    RunEndIs(baseline, current, i, true, copyStart);
    RunEndIs(baseline, current, copyStart, false, end);
    PatchUnfolds(baseline, current, i);
    AppendFields(patch, U32(AsU32(copyStart - i)), U32(copyLen), current[copyStart..copyStart + copyLen],
                 PatchFrom(baseline, current, end));
  }

  method EncodeDelta(baseline: seq<Byte>, current: seq<Byte>) returns (patch: seq<Byte>)
    ensures patch == Encode(baseline, current)
  {
    hide U32, AsU32, PatchFrom;
    patch := [];
    if |baseline| != |current| {
      return;
    }
    NothingLeft(baseline, current);
    var n := |current|;
    var i := 0;
    while i < n
      invariant 0 <= i <= n
      invariant patch + PatchFrom(baseline, current, i) == Encode(baseline, current)
    {
      var skipStart := i;
      while i < n && current[i] == baseline[i]
        invariant skipStart <= i <= n
        invariant forall k :: skipStart <= k < i ==> current[k] == baseline[k]
      {
        i := i + 1;
      }
      var skipLen := AsU32(i - skipStart);
      var copyStart := i;
      while i < n && current[i] != baseline[i]
        invariant copyStart <= i <= n
        invariant forall k :: copyStart <= k < i ==> current[k] != baseline[k]
      {
        i := i + 1;
      }
      var copyLen := AsU32(i - copyStart);
      EncodeStep(baseline, current, patch, skipStart, copyStart, i);
      patch := patch + U32(skipLen);
      patch := patch + U32(copyLen);
      if copyLen > 0 {
        patch := patch + current[copyStart..copyStart + copyLen];
      } else {
        AppendNothing(patch);
      }
    }
  }

  // ---------------------------------------------------------------- decoder

  /** `data` written over the buffer from `start` on. */
  function Spliced(output: seq<Byte>, start: nat, data: seq<Byte>): (r: seq<Byte>)
    requires start + |data| <= |output|
    ensures |r| == |output|
  {
    output[..start] + data + output[start + |data|..]
  }

  datatype Applied = Rejected | Accepted(output: seq<Byte>, consumed: nat)

  /** The decoder on an arbitrary patch: `output` so far, write position `pos`, read position `at`. */
  function ApplyFrom(output: seq<Byte>, pos: nat, patch: seq<Byte>, at: nat): (r: Applied)
    requires at <= |patch|
    ensures r.Accepted? ==> |r.output| == |output| && at <= r.consumed <= |patch|
    decreases |patch| - at
  {
    if pos >= |output| then Accepted(output, at)
    else if at + 8 > |patch| then Rejected
    else
      var start := pos + ReadU32(patch, at);
      var copyLen := ReadU32(patch, at + 4);
      if start + copyLen > |output| || at + 8 + copyLen > |patch| then Rejected
      else
        ApplyFrom(Spliced(output, start, patch[at + 8..at + 8 + copyLen]), start + copyLen, patch, at + 8 + copyLen)
  }

  /** The decoder's return value: failure and an empty snapshot are both the empty buffer. */
  function Apply(baseline: seq<Byte>, patch: seq<Byte>, outputSize: nat): (output: seq<Byte>) {
    if |baseline| != outputSize then []
    else match ApplyFrom(baseline, 0, patch, 0)
         case Rejected => []
         case Accepted(output, _) => output
  }

  /** The decoder gives a buffer of the size asked for or nothing, and nothing for a baseline of another size. */
  lemma AppliedSize(baseline: seq<Byte>, patch: seq<Byte>, outputSize: nat)
    ensures var output := Apply(baseline, patch, outputSize);
            |output| == outputSize == |baseline| || output == []
  {
  }

  /** One iteration of the decoder. */
  lemma ApplyStep(output: seq<Byte>, pos: nat, patch: seq<Byte>, at: nat)
    requires at <= |patch|
    ensures pos >= |output| ==> ApplyFrom(output, pos, patch, at) == Accepted(output, at)
    ensures pos < |output| && at + 8 > |patch| ==> ApplyFrom(output, pos, patch, at).Rejected?
    ensures pos < |output| && at + 8 <= |patch| ==>
              var start, copyLen := pos + ReadU32(patch, at), ReadU32(patch, at + 4);
              var bad := start + copyLen > |output| || at + 8 + copyLen > |patch|;
              && (bad ==> ApplyFrom(output, pos, patch, at).Rejected?)
              && (!bad ==>
                    ApplyFrom(output, pos, patch, at) ==
                    ApplyFrom(Spliced(output, start, patch[at + 8..at + 8 + copyLen]), start + copyLen, patch,
                              at + 8 + copyLen))
  {
  }

  /** memcpy into the middle of a buffer. */
  method CopyBytes(output: array<Byte>, pos: nat, data: seq<Byte>)
    requires pos + |data| <= output.Length
    modifies output
    ensures output[..] == Spliced(old(output[..]), pos, data)
  {
    forall k | pos <= k < pos + |data| {
      output[k] := data[k - pos];
    }
  }

  method ApplyDelta(baseline: seq<Byte>, patch: seq<Byte>, outputSize: nat) returns (output: array<Byte>)
    ensures fresh(output) && output[..] == Apply(baseline, patch, outputSize)
  {
    hide ReadU32, ApplyFrom;
    if |baseline| != outputSize {
      return new Byte[0];
    }
    output := new Byte[outputSize](i requires 0 <= i < |baseline| => baseline[i]);
    assert output[..] == baseline;
    var pos: nat, patchPos: nat := 0, 0;
    while pos < outputSize
      invariant patchPos <= |patch|
      invariant fresh(output) && output.Length == outputSize
      invariant ApplyFrom(output[..], pos, patch, patchPos) == ApplyFrom(baseline, 0, patch, 0)
      decreases |patch| - patchPos
    {
      ApplyStep(output[..], pos, patch, patchPos);
      if patchPos + 8 > |patch| {
        return new Byte[0];
      }
      var skipLen := ReadU32(patch, patchPos);
      var copyLen := ReadU32(patch, patchPos + 4);
      patchPos := patchPos + 8;
      pos := pos + skipLen;
      if pos + copyLen > outputSize || patchPos + copyLen > |patch| {
        return new Byte[0];
      }
      if copyLen > 0 {
        CopyBytes(output, pos, patch[patchPos..patchPos + copyLen]);
        patchPos := patchPos + copyLen;
        pos := pos + copyLen;
      } else {
        assert output[..] == Spliced(output[..], pos, patch[patchPos..patchPos]);
      }
    }
    ApplyStep(output[..], pos, patch, patchPos);
  }

  // ---------------------------------------------------------------- round trip

  /** One triple at the front of the unread patch moves the decoder across both of its runs. */
  lemma ApplyTriple(output: seq<Byte>, current: seq<Byte>, i: nat, copyStart: nat, end: nat, patch: seq<Byte>, at: nat)
    requires |output| == |current| < U32_LIMIT && i < |current| && i <= copyStart <= end <= |current|
    requires at <= |patch| && Triple(current, i, copyStart, end) <= patch[at..]
    ensures at + 8 + (end - copyStart) <= |patch|
    ensures ApplyFrom(output, i, patch, at)
         == ApplyFrom(Spliced(output, copyStart, current[copyStart..end]), end, patch, at + 8 + (end - copyStart))
  {
    hide U32, ReadU32, AsU32;
    var skip, copy := copyStart - i, end - copyStart;
    var triple := Triple(current, i, copyStart, end);
    var rest := patch[at + |triple|..];
    assert patch[at..][..|triple|] == triple;
    assert patch == patch[..at] + U32(skip) + (U32(copy) + current[copyStart..end] + rest);
    ReadU32In(skip, patch[..at], U32(copy) + current[copyStart..end] + rest);
    assert patch == (patch[..at] + U32(skip)) + U32(copy) + (current[copyStart..end] + rest);
    ReadU32In(copy, patch[..at] + U32(skip), current[copyStart..end] + rest);
    assert patch[at + 8..at + 8 + copy] == current[copyStart..end];
  }

  /** From any point of the encoding on, the decoder rebuilds the current buffer and reads no byte beyond the
      patch. */
  lemma SpliceRuns(baseline: seq<Byte>, current: seq<Byte>, i: nat, copyStart: nat, end: nat)
    requires |baseline| == |current| && i <= copyStart <= end <= |current|
    requires forall k :: i <= k < copyStart ==> current[k] == baseline[k]
    ensures var output := current[..i] + baseline[i..];
            Spliced(output, copyStart, current[copyStart..end]) == current[..end] + baseline[end..]
  {
    var output, data := current[..i] + baseline[i..], current[copyStart..end];
    var left, right := Spliced(output, copyStart, data), current[..end] + baseline[end..];
    hide Spliced;
    forall k | 0 <= k < |left| ensures left[k] == right[k] {
      SplicedAt(output, copyStart, data, k);
    }
  }

  lemma {:induction false} RoundTripFrom(baseline: seq<Byte>, current: seq<Byte>, i: nat, patch: seq<Byte>, at: nat)
    requires |baseline| == |current| < U32_LIMIT && i <= |current|
    requires at <= |patch| && PatchFrom(baseline, current, i) <= patch[at..]
    ensures ApplyFrom(current[..i] + baseline[i..], i, patch, at)
         == Accepted(current, at + |PatchFrom(baseline, current, i)|)
    decreases |current| - i
  {
    hide Triple, RunEnd, PatchFrom, ApplyFrom, Spliced;
    if i == |current| {
      assert current[..i] + baseline[i..] == current;
      NothingLeft(baseline, current);
      ApplyStep(current, i, patch, at);
    } else {
      var copyStart := RunEnd(baseline, current, i, true);
      var end := RunEnd(baseline, current, copyStart, false);
      var triple := Triple(current, i, copyStart, end);
      var output := current[..i] + baseline[i..];
      PatchUnfolds(baseline, current, i);
      ApplyTriple(output, current, i, copyStart, end, patch, at);
      SpliceRuns(baseline, current, i, copyStart, end);
      assert PatchFrom(baseline, current, end) == PatchFrom(baseline, current, i)[|triple|..];
      assert patch[at + |triple|..] == patch[at..][|triple|..];
      RoundTripFrom(baseline, current, end, patch, at + |triple|);
    }
  }

  /** Applying an encoded patch gives the current buffer and consumes exactly the patch, whatever bytes follow
      it. */
  lemma RoundTrip(baseline: seq<Byte>, current: seq<Byte>, trailing: seq<Byte>)
    requires |baseline| == |current| < U32_LIMIT
    ensures ApplyFrom(baseline, 0, Encode(baseline, current) + trailing, 0)
         == Accepted(current, |Encode(baseline, current)|)
    ensures Apply(baseline, Encode(baseline, current) + trailing, |current|) == current
  {
    var patch := Encode(baseline, current) + trailing;
    assert patch[0..] == patch;
    RoundTripFrom(baseline, current, 0, patch, 0);
    assert current[..0] + baseline[0..] == baseline;
  }

  /** A patch determines the buffer it encodes. */
  lemma EncodeInjective(baseline: seq<Byte>, current: seq<Byte>, other: seq<Byte>)
    requires |baseline| == |current| == |other| < U32_LIMIT
    requires Encode(baseline, current) == Encode(baseline, other)
    ensures current == other
  {
    RoundTrip(baseline, current, []);
    RoundTrip(baseline, other, []);
  }

  /** Each patch relative to the snapshot before it. */
  function EncodeChain(first: seq<Byte>, later: seq<seq<Byte>>): (patches: seq<seq<Byte>>)
    decreases |later|
    ensures |patches| == |later|
  {
    if later == [] then [] else [Encode(first, later[0])] + EncodeChain(later[0], later[1..])
  }

  /** A receiver that applies each patch to the buffer the previous one gave. */
  function ApplyChain(first: seq<Byte>, patches: seq<seq<Byte>>): (snapshots: seq<seq<Byte>>)
    decreases |patches|
  {
    if patches == [] then []
    else var next := Apply(first, patches[0], |first|); [next] + ApplyChain(next, patches[1..])
  }

  lemma {:induction false} ChainReproducesSnapshots(first: seq<Byte>, later: seq<seq<Byte>>)
    requires |first| < U32_LIMIT && forall s :: s in later ==> |s| == |first|
    ensures ApplyChain(first, EncodeChain(first, later)) == later
    decreases |later|
  {
    hide Encode, Apply;
    if later != [] {
      var patches := EncodeChain(first, later);
      RoundTrip(first, later[0], []);
      assert Encode(first, later[0]) + [] == patches[0];
      assert patches[1..] == EncodeChain(later[0], later[1..]);
      ChainReproducesSnapshots(later[0], later[1..]);
    }
  }

  // ---------------------------------------------------------------- malformed patches

  /** Once accepted, a patch stays accepted with the same output and the same bytes read when more bytes follow. */
  lemma {:induction false} AcceptedIgnoresTrailing(output: seq<Byte>, pos: nat, patch: seq<Byte>, at: nat,
                                                   trailing: seq<Byte>)
    requires at <= |patch| && ApplyFrom(output, pos, patch, at).Accepted?
    ensures ApplyFrom(output, pos, patch + trailing, at) == ApplyFrom(output, pos, patch, at)
    decreases |patch| - at
  {
    hide ReadU32;
    if pos < |output| {
      var longer := patch + trailing;
      ReadU32Prefix(patch, at, trailing);
      ReadU32Prefix(patch, at + 4, trailing);
      var start := pos + ReadU32(patch, at);
      var copyLen := ReadU32(patch, at + 4);
      assert longer[at + 8..at + 8 + copyLen] == patch[at + 8..at + 8 + copyLen];
      AcceptedIgnoresTrailing(Spliced(output, start, patch[at + 8..at + 8 + copyLen]),
                              start + copyLen, patch, at + 8 + copyLen, trailing);
    }
  }

  /** A patch cut short anywhere is rejected: no strict prefix of an encoded patch decodes. */
  lemma TruncationRejected(baseline: seq<Byte>, current: seq<Byte>, cut: nat)
    requires |baseline| == |current| < U32_LIMIT && cut < |Encode(baseline, current)|
    ensures ApplyFrom(baseline, 0, Encode(baseline, current)[..cut], 0).Rejected?
    ensures Apply(baseline, Encode(baseline, current)[..cut], |current|) == []
  {
    hide Encode, ApplyFrom;
    var patch := Encode(baseline, current);
    var short := patch[..cut];
    if ApplyFrom(baseline, 0, short, 0).Accepted? {
      AcceptedIgnoresTrailing(baseline, 0, short, 0, patch[cut..]);
      assert short + patch[cut..] == patch + [];
      RoundTrip(baseline, current, []);
      assert false;
    }
  }

  /** A copy run: the bytes found at `source` in the patch, written from `start` on. */
  datatype Copy = Copy(start: nat, bytes: seq<Byte>, source: nat)

  /** The copy runs an arbitrary patch describes for a buffer of `size` bytes, up to where the decoder stops. */
  function Copies(size: nat, pos: nat, patch: seq<Byte>, at: nat): (copies: seq<Copy>)
    requires at <= |patch|
    decreases |patch| - at
  {
    if pos >= size || at + 8 > |patch| then []
    else
      var start := pos + ReadU32(patch, at);
      var copyLen := ReadU32(patch, at + 4);
      if start + copyLen > size || at + 8 + copyLen > |patch| then []
      else
        [Copy(start, patch[at + 8..at + 8 + copyLen], at + 8)]
        + Copies(size, start + copyLen, patch, at + 8 + copyLen)
  }

  /** Runs whose bytes come from the patch, that write between `pos` and `size`, and follow one another in both. */
  ghost predicate InOrder(copies: seq<Copy>, pos: nat, size: nat, patch: seq<Byte>, at: nat) {
    copies != [] ==>
      var c := copies[0];
      && pos <= c.start && c.start + |c.bytes| <= size
      && at + 8 <= c.source && c.source + |c.bytes| <= |patch|
      && c.bytes == patch[c.source..c.source + |c.bytes|]
      && InOrder(copies[1..], c.start + |c.bytes|, size, patch, c.source + |c.bytes|)
  }

  lemma {:induction false} CopiesInOrder(size: nat, pos: nat, patch: seq<Byte>, at: nat)
    requires at <= |patch|
    ensures InOrder(Copies(size, pos, patch, at), pos, size, patch, at)
    decreases |patch| - at
  {
    hide ReadU32;
    if pos < size && at + 8 <= |patch| {
      var start := pos + ReadU32(patch, at);
      var copyLen := ReadU32(patch, at + 4);
      if start + copyLen <= size && at + 8 + copyLen <= |patch| {
        CopiesInOrder(size, start + copyLen, patch, at + 8 + copyLen);
      }
    }
  }

  /** The byte a reader of the copy runs expects at position `k`: the covering run's byte, or the original one. */
  function Expected(copies: seq<Copy>, k: nat, original: Byte): (b: Byte) {
    if copies == [] then original
    else
      var c := copies[0];
      if c.start <= k < c.start + |c.bytes| then c.bytes[k - c.start] else Expected(copies[1..], k, original)
  }

  lemma {:induction false} ExpectedBefore(copies: seq<Copy>, pos: nat, size: nat, patch: seq<Byte>, at: nat, k: nat,
                                          original: Byte)
    requires InOrder(copies, pos, size, patch, at) && k < pos
    ensures Expected(copies, k, original) == original
  {
    if copies != [] {
      var c := copies[0];
      ExpectedBefore(copies[1..], c.start + |c.bytes|, size, patch, c.source + |c.bytes|, k, original);
    }
  }

  lemma NothingBefore(size: nat, pos: nat, patch: seq<Byte>, at: nat, k: nat, original: Byte)
    requires at <= |patch| && k < pos
    ensures Expected(Copies(size, pos, patch, at), k, original) == original
  {
    hide Copies, Expected, InOrder;
    CopiesInOrder(size, pos, patch, at);
    ExpectedBefore(Copies(size, pos, patch, at), pos, size, patch, at, k, original);
  }

  lemma ExpectedFirst(c: Copy, rest: seq<Copy>, k: nat, original: Byte)
    ensures Expected([c] + rest, k, original) ==
            if c.start <= k < c.start + |c.bytes| then c.bytes[k - c.start] else Expected(rest, k, original)
  {
    assert ([c] + rest)[1..] == rest;
  }

  lemma SplicedAt(output: seq<Byte>, start: nat, data: seq<Byte>, k: nat)
    requires start + |data| <= |output| && k < |output|
    ensures Spliced(output, start, data)[k] == if start <= k < start + |data| then data[k - start] else output[k]
  {
  }

  /** An accepted output takes each byte inside a copy run from that run, and every other byte from the baseline. */
  lemma {:induction false} AppliedBytes(output: seq<Byte>, pos: nat, patch: seq<Byte>, at: nat, k: nat)
    requires at <= |patch| && ApplyFrom(output, pos, patch, at).Accepted? && k < |output|
    ensures ApplyFrom(output, pos, patch, at).output[k] == Expected(Copies(|output|, pos, patch, at), k, output[k])
    decreases |patch| - at
  {
    hide ReadU32, ApplyFrom, Spliced, Expected;
    ApplyStep(output, pos, patch, at);
    if pos >= |output| {
      NothingExpected(k, output[k]);
    } else {
      var start := pos + ReadU32(patch, at);
      var end := start + ReadU32(patch, at + 4);
      var data := patch[at + 8..at + 8 + end - start];
      var next := Spliced(output, start, data);
      var rest := Copies(|output|, end, patch, at + 8 + |data|);
      SplicedAt(output, start, data, k);
      AppliedBytes(next, end, patch, at + 8 + |data|, k);
      ExpectedFirst(Copy(start, data, at + 8), rest, k, output[k]);
      if start <= k < end {
        NothingBefore(|output|, end, patch, at + 8 + |data|, k, next[k]);
      }
    }
  }

  lemma NothingExpected(k: nat, original: Byte)
    ensures Expected([], k, original) == original
  {
  }

  // ---------------------------------------------------------------- size

  /** Number of positions from `i` on where the buffers differ. */
  function Differences(baseline: seq<Byte>, current: seq<Byte>, i: nat): (n: nat)
    requires |baseline| == |current| && i <= |current|
    ensures n <= |current| - i
    decreases |current| - i
  {
    if i == |current| then 0
    else (if current[i] != baseline[i] then 1 else 0) + Differences(baseline, current, i + 1)
  }

  /** The skip and copy lengths of the encoding from `i` on, triple by triple. */
  function Runs(baseline: seq<Byte>, current: seq<Byte>, i: nat): (runs: seq<(nat, nat)>)
    requires |baseline| == |current| && i <= |current|
    decreases |current| - i
  {
    if i == |current| then []
    else
      var copyStart := RunEnd(baseline, current, i, true);
      var end := RunEnd(baseline, current, copyStart, false);
      [(copyStart - i, end - copyStart)] + Runs(baseline, current, end)
  }

  function Triples(baseline: seq<Byte>, current: seq<Byte>, i: nat): (n: nat)
    requires |baseline| == |current| && i <= |current|
  {
    |Runs(baseline, current, i)|
  }

  /** Only the first skip and only the last copy can be empty. */
  lemma {:induction false} OnlyEndsAreEmpty(baseline: seq<Byte>, current: seq<Byte>, i: nat)
    requires |baseline| == |current| && i <= |current|
    ensures var runs := Runs(baseline, current, i);
            && (forall k :: 0 < k < |runs| ==> runs[k].0 > 0)
            && (forall k :: 0 <= k < |runs| - 1 ==> runs[k].1 > 0)
            && (runs != [] && current[i] == baseline[i] ==> runs[0].0 > 0)
    decreases |current| - i
  {
    if i < |current| {
      var copyStart := RunEnd(baseline, current, i, true);
      var end := RunEnd(baseline, current, copyStart, false);
      var rest := Runs(baseline, current, end);
      OnlyEndsAreEmpty(baseline, current, end);
      var runs := Runs(baseline, current, i);
      assert forall k :: 0 < k < |runs| ==> runs[k] == rest[k - 1];
    }
  }

  lemma {:induction false} DifferencesOfRun(baseline: seq<Byte>, current: seq<Byte>, i: nat, j: nat, equal: bool)
    requires |baseline| == |current| && i <= j <= |current|
    requires forall k :: i <= k < j ==> (current[k] == baseline[k]) == equal
    ensures Differences(baseline, current, i) == (if equal then 0 else j - i) + Differences(baseline, current, j)
    decreases j - i
  {
    if i < j {
      DifferencesOfRun(baseline, current, i + 1, j, equal);
    }
  }

  /** Exact patch size, and the bound on the number of triples; only the first skip can be empty. */
  lemma {:induction false} PatchSize(baseline: seq<Byte>, current: seq<Byte>, i: nat)
    requires |baseline| == |current| < U32_LIMIT && i <= |current|
    ensures |PatchFrom(baseline, current, i)|
         == 8 * Triples(baseline, current, i) + Differences(baseline, current, i)
    ensures Triples(baseline, current, i) <= (|current| - i) / 2 + 1
    ensures i < |current| && current[i] == baseline[i] ==> Triples(baseline, current, i) <= (|current| - i + 1) / 2
    decreases |current| - i
  {
    if i < |current| {
      var copyStart := RunEnd(baseline, current, i, true);
      var end := RunEnd(baseline, current, copyStart, false);
      PatchSize(baseline, current, end);
      DifferencesOfRun(baseline, current, i, copyStart, true);
      DifferencesOfRun(baseline, current, copyStart, end, false);
    }
  }

  /** The whole patch: 8 bytes a triple plus the differing bytes, never more than 4.5 bytes a byte plus one
      header. */
  lemma EncodedSize(baseline: seq<Byte>, current: seq<Byte>)
    requires |baseline| == |current| < U32_LIMIT
    ensures |Encode(baseline, current)| == 8 * Triples(baseline, current, 0) + Differences(baseline, current, 0)
    ensures |Encode(baseline, current)| <= 8 * (|current| / 2 + 1) + Differences(baseline, current, 0)
    ensures Encode(baseline, current) == [] <==> current == []
  {
    PatchSize(baseline, current, 0);
  }

  /** Identical buffers still cost one triple; the patch is not empty. */
  lemma IdenticalBuffersPatch(buffer: seq<Byte>)
    requires 0 < |buffer| < U32_LIMIT
    ensures Encode(buffer, buffer) == U32(|buffer|) + U32(0)
  {
    hide U32;
    assert RunEnd(buffer, buffer, 0, true) == |buffer|;
    assert PatchFrom(buffer, buffer, |buffer|) == [];
    assert buffer[|buffer|..|buffer|] == [];
  }

  /** A baseline of zeros, and a buffer that differs from it at every second byte. */
  function Alternating(n: nat, first: Byte): (s: seq<Byte>)
    ensures |s| == n
  {
    if n == 0 then [] else [first] + Alternating(n - 1, 1 - first % 2)
  }

  lemma OtherParity(first: Byte, k: nat)
    requires k > 0 && first < 2
    ensures (1 - first as int + (k - 1)) % 2 == (first as int + k) % 2 && (1 - first % 2) == 1 - first
  {
    if first == 1 {
      assert (k - 1) % 2 == (k + 1) % 2;
    }
  }

  lemma {:induction false} AlternatingAt(n: nat, first: Byte, k: nat)
    requires k < n && first < 2
    ensures Alternating(n, first)[k] as int == (first as int + k) % 2
  {
    if k > 0 {
      AlternatingAt(n - 1, 1 - first, k - 1);
      OtherParity(first, k);
    }
  }

  lemma TriplesStep(baseline: seq<Byte>, current: seq<Byte>, i: nat)
    requires |baseline| == |current| && i < |current|
    ensures Triples(baseline, current, i)
         == 1 + Triples(baseline, current, RunEnd(baseline, current, RunEnd(baseline, current, i, true), false))
  {
  }

  lemma DifferencesStep(baseline: seq<Byte>, current: seq<Byte>, i: nat)
    requires |baseline| == |current| && i < |current|
    ensures Differences(baseline, current, i)
         == (if current[i] != baseline[i] then 1 else 0) + Differences(baseline, current, i + 1)
  {
  }

  lemma NoneLeft(baseline: seq<Byte>, current: seq<Byte>)
    requires |baseline| == |current|
    ensures Triples(baseline, current, |current|) == 0 && Differences(baseline, current, |current|) == 0
  {
  }

  /** Inside the alternating buffer every second byte starts a triple of its own. */
  lemma {:induction false} AlternatingTriples(half: nat, i: nat)
    requires i < half
    ensures Triples(seq(2 * half, _ => 0), Alternating(2 * half, 1), 2 * i + 1) == half - i
    ensures Differences(seq(2 * half, _ => 0), Alternating(2 * half, 1), 2 * i + 1) == half - i - 1
    decreases half - i
  {
    hide Runs, Triples, Differences, RunEnd, Alternating;
    var zeros: seq<Byte> := seq(2 * half, _ => 0);
    var current := Alternating(2 * half, 1);
    var j := 2 * i + 1;
    AlternatingAt(2 * half, 1, j);
    TriplesStep(zeros, current, j);
    DifferencesStep(zeros, current, j);
    if i + 1 < half {
      AlternatingTriples(half, i + 1);
      AlternatingAt(2 * half, 1, j + 1);
      AlternatingAt(2 * half, 1, j + 2);
      RunEndIs(zeros, current, j, true, j + 1);
      RunEndIs(zeros, current, j + 1, false, j + 2);
      DifferencesStep(zeros, current, j + 1);
    } else {
      RunEndIs(zeros, current, j, true, j + 1);
      RunEndIs(zeros, current, j + 1, false, j + 1);
      NoneLeft(zeros, current);
    }
  }

  /** The size bound is reached: a header for every second byte, so a patch can be over four times the buffer. */
  lemma SizeBoundReached(half: nat)
    requires 0 < half && 2 * half < U32_LIMIT
    ensures |Encode(seq(2 * half, _ => 0), Alternating(2 * half, 1))| == 8 * (half + 1) + half
  {
    var zeros: seq<Byte> := seq(2 * half, _ => 0);
    var current := Alternating(2 * half, 1);
    AlternatingTriples(half, 0);
    AlternatingAt(2 * half, 1, 0);
    AlternatingAt(2 * half, 1, 1);
    assert current[0] != zeros[0] && current[1] == zeros[1];
    assert RunEnd(zeros, current, 0, true) == 0 && RunEnd(zeros, current, 0, false) == 1;
    PatchSize(zeros, current, 0);
  }
}
