/** The boosted-stump model: a byte is a word end when a weighted vote of
    one-byte tests ("stumps") on its neighbourhood comes out positive.
    Training samples, the sample cap, the labels, a stump's test and the
    exhaustive search for the best stump are modelled; the boosting
    arithmetic itself belongs to an external library and is abstracted into
    the per-byte classification function given to `Fields`. */
module BoostStumps {
  import opened Text
  import opened Runs

  const MaxSamples: nat := 50000
  const Backtrack: int := 15
  const Lookahead: int := 5

  /** One training or query sample: a document, the index of the byte in
      question and whether a word ends at that byte. */
  datatype BoostSample = BoostSample(document: Bytes, idx: int, space: bool)

  /** A stump: "the byte probed is `value`". `relIdx` is carried along but,
      as the classifier is written, never consulted. */
  datatype Stump = Stump(relIdx: int, value: Byte)

  datatype Option<T> = None | Some(value: T)

  // ---------------------------------------------------------------------
  // Samples

  /** The training samples of one document, built as the trainer builds
      them: join the fields, mark each field's last byte in a boundary set
      using a running index, then emit one sample per joined byte. */
  function DocumentSamples(doc: Bytes): (r: seq<BoostSample>)
    ensures |r| == |RemoveSpaces(doc)|
  {
    var fields := SplitFields(doc);
    var joined := Concat(fields);
    var boundaries := Boundaries(fields, 0);
    ConcatSplitFields(doc);
    seq(|joined|, i => BoostSample(joined, i, i in boundaries))
  }

  /** The samples of every document, laid one after the other. */
  function Gather(corpus: seq<Bytes>, samples: Bytes -> seq<BoostSample>): seq<BoostSample>
    decreases |corpus|
  {
    if |corpus| == 0 then [] else samples(corpus[0]) + Gather(corpus[1..], samples)
  }

  /** Gathering one sample per non-whitespace byte of every document gives
      one per non-whitespace byte of the corpus. */
  lemma {:induction false} GatherLength(corpus: seq<Bytes>, samples: Bytes -> seq<BoostSample>)
    requires forall d :: |samples(d)| == |RemoveSpaces(d)|
    ensures |Gather(corpus, samples)| == |RemoveSpaces(Concat(corpus))|
    decreases |corpus|
  {
    if |corpus| > 0 {
      GatherLength(corpus[1..], samples);
      RemoveSpacesAppend(corpus[0], Concat(corpus[1..]));
      assert Concat(corpus) == corpus[0] + Concat(corpus[1..]);
      assert |Gather(corpus, samples)| == |samples(corpus[0])| + |Gather(corpus[1..], samples)|;
    }
  }

  /** Gathering samples that point into their documents keeps them so. */
  lemma {:induction false} GatherWellFormed(corpus: seq<Bytes>, samples: Bytes -> seq<BoostSample>)
    requires forall d, i :: 0 <= i < |samples(d)| ==> WellFormed(samples(d)[i])
    ensures forall i :: 0 <= i < |Gather(corpus, samples)| ==> WellFormed(Gather(corpus, samples)[i])
    decreases |corpus|
  {
    if |corpus| > 0 {
      GatherWellFormed(corpus[1..], samples);
      var first, rest := samples(corpus[0]), Gather(corpus[1..], samples);
      assert Gather(corpus, samples) == first + rest;
      forall i | 0 <= i < |first + rest| ensures WellFormed((first + rest)[i]) {
        if i < |first| {
          assert (first + rest)[i] == first[i];
        } else {
          assert (first + rest)[i] == rest[i - |first|];
        }
      }
    }
  }

  /** Gathering two corpora read one after the other gives the samples of
      the first followed by those of the second. */
  lemma {:induction false} GatherAppend(a: seq<Bytes>, b: seq<Bytes>, samples: Bytes -> seq<BoostSample>)
    ensures Gather(a + b, samples) == Gather(a, samples) + Gather(b, samples)
    decreases |a|
  {
    if |a| == 0 {
      assert a + b == b;
    } else {
      var c := a + b;
      assert c[0] == a[0];
      assert c[1..] == a[1..] + b;
      GatherAppend(a[1..], b, samples);
    }
  }

  /** The samples of a corpus: every document's samples, in order, one per
      non-whitespace byte of the corpus. */
  function CorpusSamples(corpus: seq<Bytes>): (r: seq<BoostSample>)
    ensures |r| == |RemoveSpaces(Concat(corpus))|
    ensures forall i :: 0 <= i < |r| ==> WellFormed(r[i])
  {
    forall d ensures forall i :: 0 <= i < |DocumentSamples(d)| ==> WellFormed(DocumentSamples(d)[i]) {
      DocumentSamplesWellFormed(d);
    }
    GatherLength(corpus, DocumentSamples);
    GatherWellFormed(corpus, DocumentSamples);
    Gather(corpus, DocumentSamples)
  }

  /** The samples of two corpora read one after the other are the samples
      of the first followed by those of the second. */
  lemma CorpusSamplesAppend(a: seq<Bytes>, b: seq<Bytes>)
    ensures CorpusSamples(a + b) == CorpusSamples(a) + CorpusSamples(b)
  {
    GatherAppend(a, b, DocumentSamples);
  }

  /** A one-document corpus contributes exactly that document's samples. */
  lemma CorpusSamplesOfOne(doc: Bytes)
    ensures CorpusSamples([doc]) == DocumentSamples(doc)
  {
    assert [doc][1..] == [];
    assert Gather([doc], DocumentSamples) == DocumentSamples(doc) + Gather([], DocumentSamples);
    assert DocumentSamples(doc) + [] == DocumentSamples(doc);
  }

  /** The boosted-stump copy of the extractor agrees with the shared one:
      sample `i` holds the joined document, index `i` and the word-end flag
      of byte `i`. */
  lemma SamplesAgreeWithExtract(doc: Bytes)
    ensures |DocumentSamples(doc)| == |Extract(doc).bytes|
    ensures forall i :: 0 <= i < |DocumentSamples(doc)| ==>
              DocumentSamples(doc)[i] == BoostSample(Extract(doc).bytes, i, Extract(doc).flags[i])
  {
    var fields := SplitFields(doc);
    BoundariesMatchFlags(fields, 0);
    forall i | 0 <= i < |Concat(fields)|
      ensures (i in Boundaries(fields, 0)) == EndFlags(fields)[i]
    {
      assert 0 + i == i;
    }
  }

  /** Samples built from a document point at a byte of it. */
  predicate WellFormed(s: BoostSample) {
    0 <= s.idx < |s.document|
  }

  lemma DocumentSamplesWellFormed(doc: Bytes)
    ensures forall i :: 0 <= i < |DocumentSamples(doc)| ==> WellFormed(DocumentSamples(doc)[i])
  {
  }

  /** The offsets at which `ValueAt` does not index out of range: the
      in-range guard is checked on one side only, so a sample whose index
      lies outside its document can still fail. */
  predicate ValueAtDefined(s: BoostSample, k: int) {
    if k >= 0 then k + s.idx < |s.document| ==> 0 <= k + s.idx
    else 0 <= k + s.idx ==> k + s.idx < |s.document|
  }

  /** The byte `k` positions after the sample's byte, or 0 past either end
      of the document. */
  function ValueAt(s: BoostSample, k: int): (b: Byte)
    requires ValueAtDefined(s, k)
    ensures 0 <= s.idx + k < |s.document| ==> b == s.document[s.idx + k]
    ensures !(0 <= s.idx + k < |s.document|) ==> b == 0
  {
    if k >= 0 then
      if k + s.idx >= |s.document| then 0 else s.document[k + s.idx]
    else
      if k + s.idx < 0 then 0 else s.document[k + s.idx]
  }

  lemma WellFormedDefined(s: BoostSample, k: int)
    requires WellFormed(s)
    ensures ValueAtDefined(s, k)
  {
  }

  // ---------------------------------------------------------------------
  // Training data

  /** The sample cap: when there are more than `MaxSamples` samples, a
      partial Fisher–Yates shuffle moves a random selection to the front and
      the rest is dropped. The random index at step `i` is `draw(i)` reduced
      into `[i, n)`, so every choice of random numbers is covered. */
  method CapSamples<T>(samples: seq<T>, draw: nat -> nat) returns (r: seq<T>)
    ensures |samples| <= MaxSamples ==> r == samples
    ensures |samples| > MaxSamples ==> |r| == MaxSamples
    ensures multiset(r) <= multiset(samples)
  {
    r := samples;
    if |r| > MaxSamples {
      var i := 0;
      while i < MaxSamples
        invariant 0 <= i <= MaxSamples
        invariant |r| == |samples|
        invariant multiset(r) == multiset(samples)
      {
        var j := draw(i) % (|r| - i) + i;
        var a, b := r[i], r[j];
        r := r[i := b][j := a];
        i := i + 1;
      }
      assert r == r[..MaxSamples] + r[MaxSamples..];
      r := r[..MaxSamples];
    }
  }

  /** The desired outputs: +1 for a word end, -1 otherwise. */
  method Labels(samples: seq<BoostSample>) returns (d: seq<real>)
    ensures |d| == |samples|
    ensures forall i :: 0 <= i < |d| ==> (d[i] == 1.0 <==> samples[i].space)
    ensures forall i :: 0 <= i < |d| ==> (d[i] == -1.0 <==> !samples[i].space)
  {
    d := [];
    var i := 0;
    while i < |samples|
      invariant 0 <= i <= |samples|
      invariant |d| == i
      invariant forall j :: 0 <= j < i ==> (d[j] == 1.0 <==> samples[j].space)
      invariant forall j :: 0 <= j < i ==> (d[j] == -1.0 <==> !samples[j].space)
    {
      d := d + [if samples[i].space then 1.0 else -1.0];
      i := i + 1;
    }
  }

  /** The labels of a document's samples are its word-end flags. */
  lemma LabelsMatchFlags(doc: Bytes, d: seq<real>)
    requires |d| == |DocumentSamples(doc)|
    requires forall i :: 0 <= i < |d| ==> (d[i] == 1.0 <==> DocumentSamples(doc)[i].space)
    ensures |d| == |Extract(doc).flags|
    ensures forall i :: 0 <= i < |d| ==> (d[i] == 1.0 <==> Extract(doc).flags[i])
  {
    SamplesAgreeWithExtract(doc);
  }

  /** The data the boosting loop starts from: the corpus samples, capped at
      `MaxSamples` by the partial shuffle, and their labels. Every sample
      left can be probed by the stump search. */
  method TrainingSet(corpus: seq<Bytes>, draw: nat -> nat) returns (list: seq<BoostSample>, desired: seq<real>)
    ensures |CorpusSamples(corpus)| <= MaxSamples ==> list == CorpusSamples(corpus)
    ensures |CorpusSamples(corpus)| > MaxSamples ==> |list| == MaxSamples
    ensures multiset(list) <= multiset(CorpusSamples(corpus))
    ensures Probeable(list)
    ensures |desired| == |list|
    ensures forall i :: 0 <= i < |list| ==> (desired[i] == 1.0 <==> list[i].space)
    ensures forall i :: 0 <= i < |list| ==> (desired[i] == -1.0 <==> !list[i].space)
  {
    var samples := CorpusSamples(corpus);
    list := CapSamples(samples, draw);
    forall i | 0 <= i < |list| ensures WellFormed(list[i]) {
      assert list[i] in multiset(list);
      assert list[i] in samples;
    }
    WellFormedProbeable(list);
    desired := Labels(list);
  }

  // ---------------------------------------------------------------------
  // Stumps

  /** The offsets at which a list's stumps probe its samples: sample `i` of
      the list is probed at offset `i`. */
  predicate Probeable(list: seq<BoostSample>) {
    forall i :: 0 <= i < |list| ==> ValueAtDefined(list[i], i)
  }

  /** A stump's vote on each sample of a list, as written: sample `i` is
      probed at offset `i`, its position in the list, not at `relIdx`. */
  function Classify(st: Stump, list: seq<BoostSample>): (r: seq<real>)
    requires Probeable(list)
    ensures |r| == |list|
    ensures forall i :: 0 <= i < |r| ==> (r[i] == 1.0 || r[i] == -1.0)
    ensures forall i :: 0 <= i < |r| ==> (r[i] == 1.0 <==> ValueAt(list[i], i) == st.value)
  {
    seq(|list|, i requires 0 <= i < |list| => if ValueAt(list[i], i) == st.value then 1.0 else -1.0)
  }

  /** Every list of well-formed samples can be probed, so the stump search
      applies to any capped training set. */
  lemma WellFormedProbeable(list: seq<BoostSample>)
    requires forall i :: 0 <= i < |list| ==> WellFormed(list[i])
    ensures Probeable(list)
  {
    forall i | 0 <= i < |list| ensures ValueAtDefined(list[i], i) {
      WellFormedDefined(list[i], i);
    }
  }

  /** The offset of a stump never changes its votes. */
  lemma ClassifyIgnoresOffset(a: int, b: int, v: Byte, list: seq<BoostSample>)
    requires Probeable(list)
    ensures Classify(Stump(a, v), list) == Classify(Stump(b, v), list)
  {
  }

  /** On the one-sample lists that `Fields` builds, a stump tests the
      sample's own byte. */
  lemma ClassifySingleton(st: Stump, s: BoostSample)
    requires WellFormed(s)
    ensures Probeable([s])
    ensures Classify(st, [s]) == [if s.document[s.idx] == st.value then 1.0 else -1.0]
  {
  }

  function Abs(x: real): real {
    if x < 0.0 then -x else x
  }

  /** `sum_{i < n} c[i] * w[i]`, accumulated left to right. */
  function Weighted(c: seq<real>, w: seq<real>, n: nat): real
    requires n <= |c| && n <= |w|
  {
    if n == 0 then 0.0 else Weighted(c, w, n - 1) + c[n - 1] * w[n - 1]
  }

  /** How well a stump fits the weights: the absolute weighted sum of its
      votes. */
  function Score(st: Stump, list: seq<BoostSample>, w: seq<real>): real
    requires Probeable(list) && |w| >= |list|
  {
    Abs(Weighted(Classify(st, list), w, |list|))
  }

  /** The running dot product of the search loop: add the weight of each
      sample whose probed byte equals `v`, subtract the others. */
  function Dot(list: seq<BoostSample>, w: seq<real>, v: Byte, n: nat): real
    requires Probeable(list) && n <= |list| && |w| >= |list|
  {
    if n == 0 then 0.0
    else Dot(list, w, v, n - 1) + (if ValueAt(list[n - 1], n - 1) == v then w[n - 1] else -w[n - 1])
  }

  /** The search loop's dot product is the stump's weighted vote. */
  lemma {:induction false} DotIsWeighted(st: Stump, list: seq<BoostSample>, w: seq<real>, n: nat)
    requires Probeable(list) && n <= |list| && |w| >= |list|
    ensures Dot(list, w, st.value, n) == Weighted(Classify(st, list), w, n)
    decreases n
  {
    if n > 0 {
      DotIsWeighted(st, list, w, n - 1);
    }
  }

  /** `b` is the first value below `n` whose score is maximal among the
      values below `n`. */
  ghost predicate FirstBest(list: seq<BoostSample>, w: seq<real>, b: Byte, n: nat)
    requires Probeable(list) && |w| >= |list|
  {
    b < n <= 256 &&
    (forall v: Byte :: v < n ==> Abs(Dot(list, w, v, |list|)) <= Abs(Dot(list, w, b, |list|))) &&
    (forall v: Byte :: v < b ==> Abs(Dot(list, w, v, |list|)) < Abs(Dot(list, w, b, |list|)))
  }

  /** The exhaustive stump search: every offset from -Backtrack to
      Lookahead and every byte value, keeping the first strictly better
      score. Because the score does not depend on the offset, the first
      offset always wins. */
  method BestClassifier(list: seq<BoostSample>, w: seq<real>) returns (best: Stump)
    requires Probeable(list) && |w| >= |list|
    ensures best.relIdx == -Backtrack
    ensures forall off: int, v: Byte :: -Backtrack <= off <= Lookahead ==>
              Score(Stump(off, v), list, w) <= Score(best, list, w)
    ensures forall v: Byte :: v < best.value ==>
              Score(Stump(best.relIdx, v), list, w) < Score(best, list, w)
  {
    var bestDot: real := 0.0;
    var found: Option<Stump> := None;
    var idx: int := -Backtrack;
    while idx <= Lookahead
      invariant -Backtrack <= idx <= Lookahead + 1
      invariant found.None? <==> idx == -Backtrack
      invariant found.Some? ==> found.value.relIdx == -Backtrack
      invariant found.Some? ==> bestDot == Abs(Dot(list, w, found.value.value, |list|))
      invariant found.Some? ==> FirstBest(list, w, found.value.value, 256)
    {
      var value := 0;
      while value < 256
        invariant 0 <= value <= 256
        invariant idx == -Backtrack ==> (found.None? <==> value == 0)
        invariant idx != -Backtrack ==> found.Some?
        invariant found.Some? ==> found.value.relIdx == -Backtrack
        invariant found.Some? ==> bestDot == Abs(Dot(list, w, found.value.value, |list|))
        invariant found.Some? ==>
                    FirstBest(list, w, found.value.value, if idx == -Backtrack then value else 256)
      {
        var dot: real := 0.0;
        var i := 0;
        while i < |list|
          invariant 0 <= i <= |list|
          invariant dot == Dot(list, w, value, i)
        {
          if value == ValueAt(list[i], i) {
            dot := dot + w[i];
          } else {
            dot := dot - w[i];
          }
          i := i + 1;
        }
        dot := Abs(dot);
        if dot > bestDot || found.None? {
          bestDot := dot;
          found := Some(Stump(idx, value));
        }
        value := value + 1;
      }
      idx := idx + 1;
    }
    best := found.value;
    forall off: int, v: Byte | -Backtrack <= off <= Lookahead
      ensures Score(Stump(off, v), list, w) <= Score(best, list, w)
    {
      DotIsWeighted(Stump(off, v), list, w, |list|);
      DotIsWeighted(best, list, w, |list|);
    }
    forall v: Byte | v < best.value
      ensures Score(Stump(best.relIdx, v), list, w) < Score(best, list, w)
    {
      DotIsWeighted(Stump(best.relIdx, v), list, w, |list|);
      DotIsWeighted(best, list, w, |list|);
    }
  }

  // ---------------------------------------------------------------------
  // Segmentation

  /** The per-byte decisions for one part: byte `i` ends a word when the
      classifier's output on the one-sample list for byte `i` is positive.
      The trained ensemble is given as `classify`, its output on that
      one-sample list. */
  function Decisions(classify: BoostSample -> real, part: Bytes): (cuts: seq<bool>)
    ensures |cuts| == |part|
    ensures forall i :: 0 <= i < |part| ==> (cuts[i] <==> classify(BoostSample(part, i, false)) > 0.0)
  {
    seq(|part|, i => classify(BoostSample(part, i, false)) > 0.0)
  }

  /** Fields of a text: each whitespace-separated part is cut after every
      byte the classifier votes for. */
  function Fields(classify: BoostSample -> real, text: Bytes): (ws: seq<Bytes>)
    ensures Concat(ws) == RemoveSpaces(text)
    ensures AllFields(ws)
  {
    CutFields(p => Decisions(classify, p), text)
  }
}
