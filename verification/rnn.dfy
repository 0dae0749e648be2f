/** The recurrent-network model, without the network: its training data
    (the bounded sample of a document, cut into fixed-size windows), the
    sample set the optimiser works on, the one-hot encoding of a window, the
    cap on the number of windows, and segmentation driven by the network's
    per-byte outputs, which are given as a function. */
module Rnn {
  import opened Text
  import opened Runs

  const SeqSize: nat := 128
  const FeatureCount: nat := 256
  const MaxSamples: nat := 8192

  /** The windows the network trains on, with their word-end flags. */
  datatype SampleSet = SampleSet(samples: seq<Bytes>, endFlags: seq<seq<bool>>)

  /** One input/output pair for the optimiser. */
  datatype VectorSample = VectorSample(input: seq<real>, output: seq<real>)

  // ---------------------------------------------------------------------
  // Training data

  /** The recurrent model's copy of the extractor: append each byte of each
      field, with a flag telling whether it is the field's last. */
  method BoundedSample(data: Bytes) returns (sample: Bytes, bounds: seq<bool>)
    ensures Run(sample, bounds) == Extract(data)
  {
    var fields := SplitFields(data);
    sample, bounds := [], [];
    var k := 0;
    while k < |fields|
      invariant 0 <= k <= |fields|
      invariant sample == Concat(fields[..k])
      invariant bounds == EndFlags(fields[..k])
    {
      var field := fields[k];
      var i := 0;
      while i < |field|
        invariant 0 <= i <= |field|
        invariant sample == Concat(fields[..k]) + field[..i]
        invariant bounds == EndFlags(fields[..k]) + WordFlags(field)[..i]
      {
        sample := sample + [field[i]];
        bounds := bounds + [i == |field| - 1];
        assert field[..i + 1] == field[..i] + [field[i]];
        assert WordFlags(field)[..i + 1] == WordFlags(field)[..i] + [i == |field| - 1];
        i := i + 1;
      }
      assert field[..i] == field && WordFlags(field)[..i] == WordFlags(field);
      PrefixStep(fields, k);
      k := k + 1;
    }
    assert fields[..k] == fields;
  }

  /** Taking one more field appends its bytes and its flags. */
  lemma PrefixStep(fields: seq<Bytes>, k: nat)
    requires k < |fields|
    ensures Concat(fields[..k + 1]) == Concat(fields[..k]) + fields[k]
    ensures EndFlags(fields[..k + 1]) == EndFlags(fields[..k]) + WordFlags(fields[k])
  {
    var field := fields[k];
    assert fields[..k + 1] == fields[..k] + [field];
    ConcatAppend(fields[..k], [field]);
    EndFlagsAppend(fields[..k], [field]);
    assert Concat([field]) == field + Concat([]);
    assert EndFlags([field]) == WordFlags(field) + EndFlags([]);
  }

  /** The non-overlapping windows of `SeqSize` bytes starting at offsets 0,
      128, 256, ...; a trailing partial window is dropped. */
  function Windows(data: Bytes, bounds: seq<bool>): (r: SampleSet)
    requires |bounds| == |data|
    ensures |r.samples| == |r.endFlags| == |data| / SeqSize
    ensures forall k :: 0 <= k < |r.samples| ==>
              SeqSize * k + SeqSize <= |data| &&
              r.samples[k] == data[SeqSize * k..SeqSize * k + SeqSize] &&
              r.endFlags[k] == bounds[SeqSize * k..SeqSize * k + SeqSize]
    decreases |data|
  {
    if |data| < SeqSize then SampleSet([], [])
    else
      var rest := Windows(data[SeqSize..], bounds[SeqSize..]);
      WindowsCons(data, bounds, rest);
      SampleSet([data[..SeqSize]] + rest.samples, [bounds[..SeqSize]] + rest.endFlags)
  }

  lemma DivStep(n: nat)
    requires n >= SeqSize
    ensures (n - SeqSize) / SeqSize + 1 == n / SeqSize
    ensures (n - SeqSize) % SeqSize == n % SeqSize
  {
  }

  /** The first window followed by the windows of the data after it are
      the windows of the whole data. */
  lemma WindowsCons(data: Bytes, bounds: seq<bool>, rest: SampleSet)
    requires |bounds| == |data| >= SeqSize
    requires |rest.samples| == |rest.endFlags| == (|data| - SeqSize) / SeqSize
    requires forall k :: 0 <= k < |rest.samples| ==>
               SeqSize * k + SeqSize <= |data| - SeqSize &&
               rest.samples[k] == data[SeqSize..][SeqSize * k..SeqSize * k + SeqSize] &&
               rest.endFlags[k] == bounds[SeqSize..][SeqSize * k..SeqSize * k + SeqSize]
    ensures var r := SampleSet([data[..SeqSize]] + rest.samples, [bounds[..SeqSize]] + rest.endFlags);
            |r.samples| == |r.endFlags| == |data| / SeqSize &&
            forall k :: 0 <= k < |r.samples| ==>
              SeqSize * k + SeqSize <= |data| &&
              r.samples[k] == data[SeqSize * k..SeqSize * k + SeqSize] &&
              r.endFlags[k] == bounds[SeqSize * k..SeqSize * k + SeqSize]
  {
    DivStep(|data|);
    var r := SampleSet([data[..SeqSize]] + rest.samples, [bounds[..SeqSize]] + rest.endFlags);
    forall k | 1 <= k < |r.samples|
      ensures SeqSize * k + SeqSize <= |data|
      ensures r.samples[k] == data[SeqSize * k..SeqSize * k + SeqSize]
      ensures r.endFlags[k] == bounds[SeqSize * k..SeqSize * k + SeqSize]
    {
      var j := k - 1;
      var lo := SeqSize * j + SeqSize;
      assert SeqSize * k == lo;
      assert SeqSize * j + SeqSize <= |data| - SeqSize;
      assert r.samples[k] == rest.samples[j] && r.endFlags[k] == rest.endFlags[j];
      assert data[SeqSize..][SeqSize * j..SeqSize * j + SeqSize] == data[lo..lo + SeqSize];
      assert bounds[SeqSize..][SeqSize * j..SeqSize * j + SeqSize] == bounds[lo..lo + SeqSize];
    }
  }

  /** The whole windows of `data` are its first window followed by the
      whole windows of the rest. */
  lemma TileStep(data: Bytes)
    requires |data| >= SeqSize
    ensures var n := |data| - |data| % SeqSize;
            var t := data[SeqSize..];
            n >= SeqSize &&
            |t| - |t| % SeqSize == n - SeqSize &&
            data[..n] == data[..SeqSize] + t[..|t| - |t| % SeqSize]
  {
    DivStep(|data|);
    var n := |data| - |data| % SeqSize;
    var t := data[SeqSize..];
    assert |t| - |t| % SeqSize == n - SeqSize;
    assert data[..n] == data[..SeqSize] + t[..n - SeqSize];
  }

  /** The windows tile the data up to the dropped tail. */
  lemma {:induction false} WindowsTile(data: Bytes, bounds: seq<bool>)
    requires |bounds| == |data|
    ensures Concat(Windows(data, bounds).samples) == data[..|data| - |data| % SeqSize]
    decreases |data|
  {
    if |data| >= SeqSize {
      var rest := Windows(data[SeqSize..], bounds[SeqSize..]);
      WindowsTile(data[SeqSize..], bounds[SeqSize..]);
      var r := Windows(data, bounds);
      assert r.samples == [data[..SeqSize]] + rest.samples;
      assert r.samples[1..] == rest.samples;
      TileStep(data);
    }
  }

  /** The windows of one document's bounded sample. */
  function DocumentWindows(doc: Bytes): (r: SampleSet)
    ensures Full(r)
  {
    var run := Extract(doc);
    WindowsPaired(run.bytes, run.flags);
    Windows(run.bytes, run.flags)
  }

  /** The sample sets of every document, laid one after the other. */
  function Gather(corpus: seq<Bytes>, windows: Bytes -> SampleSet): SampleSet
    decreases |corpus|
  {
    if |corpus| == 0 then SampleSet([], [])
    else
      var first := windows(corpus[0]);
      var rest := Gather(corpus[1..], windows);
      SampleSet(first.samples + rest.samples, first.endFlags + rest.endFlags)
  }

  /** Gathering full sets gives a full set. */
  lemma {:induction false} GatherFull(corpus: seq<Bytes>, windows: Bytes -> SampleSet)
    requires forall d :: Full(windows(d))
    ensures Full(Gather(corpus, windows))
    decreases |corpus|
  {
    if |corpus| > 0 {
      GatherFull(corpus[1..], windows);
      AppendFull(windows(corpus[0]), Gather(corpus[1..], windows));
    }
  }

  /** Gathering two corpora read one after the other gives the sets of the
      first followed by those of the second. */
  lemma {:induction false} GatherAppend(a: seq<Bytes>, b: seq<Bytes>, windows: Bytes -> SampleSet)
    ensures var x, y := Gather(a, windows), Gather(b, windows);
            Gather(a + b, windows) == SampleSet(x.samples + y.samples, x.endFlags + y.endFlags)
    decreases |a|
  {
    if |a| == 0 {
      assert a + b == b;
    } else {
      var c := a + b;
      assert c[0] == a[0];
      assert c[1..] == a[1..] + b;
      GatherAppend(a[1..], b, windows);
      var first := windows(a[0]);
      var x, y := Gather(a[1..], windows), Gather(b, windows);
      assert first.samples + (x.samples + y.samples) == (first.samples + x.samples) + y.samples;
      assert first.endFlags + (x.endFlags + y.endFlags) == (first.endFlags + x.endFlags) + y.endFlags;
    }
  }

  /** The sample set built from a corpus: the windows of every document's
      bounded sample, in order. */
  function CorpusSamples(corpus: seq<Bytes>): (r: SampleSet)
    ensures Paired(r)
    ensures forall k :: 0 <= k < |r.samples| ==> |r.samples[k]| == SeqSize
  {
    GatherFull(corpus, DocumentWindows);
    Gather(corpus, DocumentWindows)
  }

  /** The sample set of two corpora read one after the other is that of
      the first followed by that of the second. */
  lemma CorpusSamplesAppend(a: seq<Bytes>, b: seq<Bytes>)
    ensures var x, y := CorpusSamples(a), CorpusSamples(b);
            CorpusSamples(a + b) == SampleSet(x.samples + y.samples, x.endFlags + y.endFlags)
  {
    GatherAppend(a, b, DocumentWindows);
  }

  /** A one-document corpus contributes exactly the windows of that
      document's bounded sample. */
  lemma CorpusSamplesOfOne(doc: Bytes)
    ensures CorpusSamples([doc]) == Windows(Extract(doc).bytes, Extract(doc).flags)
  {
    assert [doc][1..] == [];
    var w := DocumentWindows(doc);
    assert Gather([doc][1..], DocumentWindows) == SampleSet([], []);
    assert w.samples + [] == w.samples && w.endFlags + [] == w.endFlags;
  }

  /** Paired, and every window holds `SeqSize` bytes. */
  predicate Full(s: SampleSet) {
    Paired(s) && forall k :: 0 <= k < |s.samples| ==> |s.samples[k]| == SeqSize
  }

  lemma WindowsPaired(data: Bytes, bounds: seq<bool>)
    requires |bounds| == |data|
    ensures Full(Windows(data, bounds))
  {
    var r := Windows(data, bounds);
    forall k | 0 <= k < |r.samples|
      ensures |r.samples[k]| == |r.endFlags[k]| == SeqSize
    {
    }
  }

  lemma AppendFull(a: SampleSet, b: SampleSet)
    requires Full(a) && Full(b)
    ensures Full(SampleSet(a.samples + b.samples, a.endFlags + b.endFlags))
  {
    var r := SampleSet(a.samples + b.samples, a.endFlags + b.endFlags);
    forall k | |a.samples| <= k < |r.samples|
      ensures |r.samples[k]| == |r.endFlags[k]| == SeqSize
    {
      assert r.samples[k] == b.samples[k - |a.samples|];
      assert r.endFlags[k] == b.endFlags[k - |a.samples|];
    }
  }

  // ---------------------------------------------------------------------
  // The sample set

  /** Every window has a flag list, of the same length. */
  predicate Paired(s: SampleSet) {
    |s.samples| == |s.endFlags| &&
    forall k :: 0 <= k < |s.samples| ==> |s.endFlags[k]| == |s.samples[k]|
  }

  function Len(s: SampleSet): nat {
    |s.samples|
  }

  /** A copy made element by element into fresh lists of the source's
      lengths. */
  method Copy(s: SampleSet) returns (r: SampleSet)
    ensures r == s
  {
    var samples := seq(|s.samples|, _ => []);
    var endFlags := seq(|s.endFlags|, _ => []);
    var i := 0;
    while i < |s.samples|
      invariant 0 <= i <= |s.samples| == |samples|
      invariant samples[..i] == s.samples[..i]
    {
      samples := samples[i := s.samples[i]];
      i := i + 1;
    }
    i := 0;
    while i < |s.endFlags|
      invariant 0 <= i <= |s.endFlags| == |endFlags|
      invariant endFlags[..i] == s.endFlags[..i]
    {
      endFlags := endFlags[i := s.endFlags[i]];
      i := i + 1;
    }
    assert samples == samples[..|samples|] && s.samples == s.samples[..|samples|];
    assert endFlags == endFlags[..|endFlags|] && s.endFlags == s.endFlags[..|endFlags|];
    r := SampleSet(samples, endFlags);
  }

  /** Exchange two windows together with their flags. */
  function Swap(s: SampleSet, i: nat, j: nat): (r: SampleSet)
    requires i < |s.samples| && j < |s.samples|
    requires i < |s.endFlags| && j < |s.endFlags|
    ensures Len(r) == Len(s) && |r.endFlags| == |s.endFlags|
    ensures r.samples[i] == s.samples[j] && r.samples[j] == s.samples[i]
    ensures r.endFlags[i] == s.endFlags[j] && r.endFlags[j] == s.endFlags[i]
    ensures forall k :: 0 <= k < |r.samples| && k != i && k != j ==> r.samples[k] == s.samples[k]
    ensures forall k :: 0 <= k < |r.endFlags| && k != i && k != j ==> r.endFlags[k] == s.endFlags[k]
    ensures multiset(r.samples) == multiset(s.samples)
    ensures Paired(s) ==> Paired(r)
  {
    SampleSet(s.samples[i := s.samples[j]][j := s.samples[i]],
              s.endFlags[i := s.endFlags[j]][j := s.endFlags[i]])
  }

  /** Swapping twice restores the set. */
  lemma SwapTwice(s: SampleSet, i: nat, j: nat)
    requires i < |s.samples| && j < |s.samples|
    requires i < |s.endFlags| && j < |s.endFlags|
    ensures Swap(Swap(s, i, j), i, j) == s
  {
    var r := Swap(Swap(s, i, j), i, j);
    assert r.samples == s.samples;
    assert r.endFlags == s.endFlags;
  }

  /** The windows `start` to `end - 1`, with their flags. */
  function Subset(s: SampleSet, start: nat, end: nat): (r: SampleSet)
    requires start <= end <= |s.samples| && end <= |s.endFlags|
    ensures Len(r) == end - start && |r.endFlags| == end - start
    ensures forall k :: 0 <= k < end - start ==>
              r.samples[k] == s.samples[start + k] && r.endFlags[k] == s.endFlags[start + k]
    ensures Paired(s) ==> Paired(r)
  {
    SampleSet(s.samples[start..end], s.endFlags[start..end])
  }

  /** The training cap: keep at most `MaxSamples` windows, the first ones. */
  function Truncate(s: SampleSet): (r: SampleSet)
    requires Len(s) > MaxSamples ==> MaxSamples <= |s.endFlags|
    ensures Len(s) <= MaxSamples ==> r == s
    ensures Len(s) > MaxSamples ==> Len(r) == MaxSamples
    ensures r.samples <= s.samples
    ensures r.endFlags <= s.endFlags
    ensures Paired(s) ==> Paired(r)
  {
    if Len(s) > MaxSamples then Subset(s, 0, MaxSamples) else s
  }

  // ---------------------------------------------------------------------
  // Encoding

  /** The 256-entry indicator vector of a byte. */
  function OneHot(b: Byte): (v: seq<real>)
    ensures |v| == FeatureCount
  {
    seq(FeatureCount, c => if c == b then 1.0 else 0.0)
  }

  /** The network input for a window: the one-hot vectors of its bytes, one
      after another. */
  function Encode(data: Bytes): (v: seq<real>)
    ensures |v| == FeatureCount * |data|
    ensures forall i :: 0 <= i < |data| ==>
              v[FeatureCount * i..FeatureCount * i + FeatureCount] == OneHot(data[i])
  {
    if |data| == 0 then []
    else
      var rest := Encode(data[1..]);
      var v := OneHot(data[0]) + rest;
      assert forall i :: 1 <= i < |data| ==>
        v[FeatureCount * i..FeatureCount * i + FeatureCount]
          == rest[FeatureCount * (i - 1)..FeatureCount * (i - 1) + FeatureCount];
      v
  }

  /** The index of the first 1.0 at or after `c` in a block, or 0. */
  function HotIndex(block: seq<real>, c: nat): Byte
    requires |block| <= FeatureCount
    decreases FeatureCount - c
  {
    if c >= |block| then 0
    else if block[c] == 1.0 then c
    else HotIndex(block, c + 1)
  }

  /** Reading the hot index of every block of an input vector. */
  function Decode(v: seq<real>): Bytes
    decreases |v|
  {
    if |v| < FeatureCount then []
    else [HotIndex(v[..FeatureCount], 0)] + Decode(v[FeatureCount..])
  }

  lemma {:induction false} HotIndexOneHot(b: Byte, c: nat)
    requires c <= b
    ensures HotIndex(OneHot(b), c) == b
    decreases FeatureCount - c
  {
    if c < b {
      HotIndexOneHot(b, c + 1);
    }
  }

  /** The encoding loses nothing: each byte is recovered from its block. */
  lemma {:induction false} DecodeEncode(data: Bytes)
    ensures Decode(Encode(data)) == data
    decreases |data|
  {
    if |data| > 0 {
      var v := Encode(data);
      assert v == OneHot(data[0]) + Encode(data[1..]);
      assert v[..FeatureCount] == OneHot(data[0]);
      assert v[FeatureCount..] == Encode(data[1..]);
      HotIndexOneHot(data[0], 0);
      DecodeEncode(data[1..]);
      assert data == [data[0]] + data[1..];
    }
  }

  /** The flags of a window as the 1.0/0.0 target vector. */
  function Targets(flags: seq<bool>): (t: seq<real>)
    ensures |t| == |flags|
    ensures forall i :: 0 <= i < |flags| ==> (t[i] == 1.0 <==> flags[i]) && (t[i] == 0.0 <==> !flags[i])
  {
    seq(|flags|, i requires 0 <= i < |flags| => if flags[i] then 1.0 else 0.0)
  }

  /** Window `idx` as an input/output pair: one-hot input, one target per
      byte. Only the first `|data|` flags are read. */
  function GetSample(s: SampleSet, idx: nat): (r: VectorSample)
    requires idx < |s.samples| && idx < |s.endFlags|
    requires |s.samples[idx]| <= |s.endFlags[idx]|
    ensures |r.input| == FeatureCount * |s.samples[idx]|
    ensures |r.output| == |s.samples[idx]|
    ensures forall i :: 0 <= i < |s.samples[idx]| ==>
              r.input[FeatureCount * i..FeatureCount * i + FeatureCount] == OneHot(s.samples[idx][i])
    ensures forall i :: 0 <= i < |r.output| ==>
              (r.output[i] == 1.0 <==> s.endFlags[idx][i]) && (r.output[i] == 0.0 <==> !s.endFlags[idx][i])
  {
    var data := s.samples[idx];
    VectorSample(Encode(data), Targets(s.endFlags[idx][..|data|]))
  }

  /** The input of a sample determines its window. */
  lemma GetSampleDecodes(s: SampleSet, idx: nat)
    requires idx < |s.samples| && idx < |s.endFlags|
    requires |s.samples[idx]| <= |s.endFlags[idx]|
    ensures Decode(GetSample(s, idx).input) == s.samples[idx]
  {
    DecodeEncode(s.samples[idx]);
  }

  // ---------------------------------------------------------------------
  // Segmentation

  /** The network's decisions for one part: byte `i` ends a word when the
      first output at position `i`, `score(part, i)`, is positive. */
  function Decisions(score: (Bytes, nat) -> real, part: Bytes): (cuts: seq<bool>)
    ensures |cuts| == |part|
    ensures forall i :: 0 <= i < |part| ==> (cuts[i] <==> score(part, i) > 0.0)
  {
    seq(|part|, i requires 0 <= i < |part| => score(part, i) > 0.0)
  }

  /** Fields of a text: each whitespace-separated part is cut after every
      byte the network scores positive; the loop is the boosted-stump one,
      driven by the network's output instead of the ensemble's vote. */
  function Fields(score: (Bytes, nat) -> real, text: Bytes): (ws: seq<Bytes>)
    ensures Concat(ws) == RemoveSpaces(text)
    ensures AllFields(ws)
  {
    CutFields(p => Decisions(score, p), text)
  }
}
