/** The Markov model: unigram and bigram word counts, a most-likely-next
    word rule, and the left-to-right segmentation scan that uses it. */
module Markov {
  import opened Text
  import opened Counts

  /** `RawCounts[w]`: occurrences of `w`; `Table[p][w]`: occurrences of `w`
      right after `p`, with `p == ""` for a document's first word. */
  datatype Markov = Markov(rawCounts: Counter, table: Table)

  /** The model `TrainMarkov` starts from. */
  const Untrained: Markov := Markov(map[], map[])

  function Unigram(m: Markov, w: Bytes): int {
    Count(m.rawCounts, w)
  }

  function Bigram(m: Markov, prev: Bytes, w: Bytes): int {
    Count(Row(m.table, prev), w)
  }

  // ---------------------------------------------------------------------
  // Training

  /** One iteration of `trainMarkovSample`'s loop: count `w` and the pair
      (`prev`, `w`). */
  function Observe(m: Markov, prev: Bytes, w: Bytes): Markov {
    Markov(Increment(m.rawCounts, w), Increment2(m.table, prev, w))
  }

  /** `trainMarkovSample` from field `i` on, `prev` being the field before. */
  function TrainFrom(m: Markov, prev: Bytes, fields: seq<Bytes>): Markov
    decreases |fields|
  {
    if |fields| == 0 then m
    else TrainFrom(Observe(m, prev, fields[0]), fields[0], fields[1..])
  }

  /** `trainMarkovSample(m, fields)`: every field adds one to its own
      count, and every adjacent pair one to its table entry, the first field
      following the empty word. */
  function TrainSample(m: Markov, fields: seq<Bytes>): (r: Markov)
    ensures forall w :: Unigram(r, w) == Unigram(m, w) + multiset(fields)[w]
    ensures forall p, w :: Bigram(r, p, w) == Bigram(m, p, w) + multiset(Pairs([], fields))[(p, w)]
  {
    TrainCounts(m, [], fields);
    TrainFrom(m, [], fields)
  }

  /** `TrainMarkov` on documents given directly: one sample per document. */
  function TrainCorpus(m: Markov, corpus: seq<Bytes>): Markov
    decreases |corpus|
  {
    if |corpus| == 0 then m
    else TrainCorpus(TrainSample(m, SplitFields(corpus[0])), corpus[1..])
  }

  /** `TrainMarkov`: a trained model is balanced, and `Fields` can be
      applied to it. */
  function Train(corpus: seq<Bytes>): (r: Markov)
    ensures Balanced(r)
    ensures NoEmptyCounts(r)
  {
    EmptyTotal();
    TrainCorpusInvariants(Untrained, corpus);
    TrainCorpus(Untrained, corpus)
  }

  /** The adjacent pairs a sample contributes to the table, the first
      paired with the empty word. */
  function Pairs(prev: Bytes, fields: seq<Bytes>): seq<(Bytes, Bytes)>
    decreases |fields|
  {
    if |fields| == 0 then []
    else [(prev, fields[0])] + Pairs(fields[0], fields[1..])
  }

  // ---------------------------------------------------------------------
  // Choosing a word

  /** The score a scan ranks by: the bigram count after `prev`, or the
      unigram count. */
  function Score(m: Markov, prev: Bytes, w: Bytes, bigram: bool): int {
    if bigram then Bigram(m, prev, w) else Unigram(m, w)
  }

  /** The state of a scan over `options[..k]`: `best` is the largest score
      seen when that is positive and `idx` the first option with it; while
      no score has been positive, `best == 0` and `idx == 0`. */
  ghost predicate ScanState(m: Markov, prev: Bytes, options: seq<Bytes>, bigram: bool,
                            k: nat, best: int, idx: nat)
  {
    && k <= |options|
    && idx < |options|
    && 0 <= best
    && (forall j :: 0 <= j < k ==> Score(m, prev, options[j], bigram) <= best)
    && (best == 0 ==> idx == 0)
    && (best > 0 ==> idx < k && Score(m, prev, options[idx], bigram) == best &&
                     forall j :: 0 <= j < idx ==> Score(m, prev, options[j], bigram) < best)
  }

  /** One of `MostLikely`'s two loops, from option `k` on: an option
      replaces the current best only with a strictly larger count. */
  function Scan(m: Markov, prev: Bytes, options: seq<Bytes>, bigram: bool,
                k: nat, best: int, idx: nat): (r: (int, nat))
    requires ScanState(m, prev, options, bigram, k, best, idx)
    ensures r.1 < |options| && 0 <= r.0
    ensures r.0 == 0 ==> r.1 == 0
    decreases |options| - k
  {
    if k == |options| then (best, idx)
    else
      var count := Score(m, prev, options[k], bigram);
      if count > best then Scan(m, prev, options, bigram, k + 1, count, k)
      else Scan(m, prev, options, bigram, k + 1, best, idx)
  }

  /** A scan ends in the scan state for all the options: the largest
      positive score and the first option having it. */
  lemma {:induction false} ScanKeepsState(m: Markov, prev: Bytes, options: seq<Bytes>, bigram: bool,
                                          k: nat, best: int, idx: nat)
    requires ScanState(m, prev, options, bigram, k, best, idx)
    ensures var r := Scan(m, prev, options, bigram, k, best, idx);
            ScanState(m, prev, options, bigram, |options|, r.0, r.1)
    decreases |options| - k
  {
    if k < |options| {
      var count := Score(m, prev, options[k], bigram);
      if count > best {
        ScanKeepsState(m, prev, options, bigram, k + 1, count, k);
      } else {
        ScanKeepsState(m, prev, options, bigram, k + 1, best, idx);
      }
    }
  }

  /** `options[idx]` has the largest score, and every earlier option a
      strictly smaller one. */
  ghost predicate FirstMax(m: Markov, prev: Bytes, options: seq<Bytes>, bigram: bool, idx: nat) {
    && idx < |options|
    && (forall j :: 0 <= j < |options| ==> Score(m, prev, options[j], bigram) <= Score(m, prev, options[idx], bigram))
    && (forall j :: 0 <= j < idx ==> Score(m, prev, options[j], bigram) < Score(m, prev, options[idx], bigram))
  }

  ghost predicate SomePositive(m: Markov, prev: Bytes, options: seq<Bytes>, bigram: bool) {
    exists j :: 0 <= j < |options| && Score(m, prev, options[j], bigram) > 0
  }

  /** The index `MostLikely` returns; `MostLikelyChoice` says which. */
  function MostLikelyIndex(m: Markov, prev: Bytes, options: seq<Bytes>): (idx: nat)
    requires |options| > 0
    ensures idx < |options|
  {
    var (best, idx) := Scan(m, prev, options, true, 0, 0, 0);
    if best > 0 then idx
    else
      var (best', idx') := Scan(m, prev, options, false, 0, best, idx);
      idx'
  }

  /** `MostLikely` picks the first option with the largest positive bigram
      count after `prev`; failing that the first with the largest positive
      unigram count; failing that the first option. */
  lemma MostLikelyChoice(m: Markov, prev: Bytes, options: seq<Bytes>)
    requires |options| > 0
    ensures var idx := MostLikelyIndex(m, prev, options);
      && (SomePositive(m, prev, options, true) ==> FirstMax(m, prev, options, true, idx))
      && (!SomePositive(m, prev, options, true) && SomePositive(m, prev, options, false) ==>
            FirstMax(m, prev, options, false, idx))
      && (!SomePositive(m, prev, options, true) && !SomePositive(m, prev, options, false) ==>
            idx == 0)
  {
    ScanKeepsState(m, prev, options, true, 0, 0, 0);
    var (best, idx) := Scan(m, prev, options, true, 0, 0, 0);
    if best <= 0 {
      ScanKeepsState(m, prev, options, false, 0, best, idx);
    }
  }

  /** `Markov.MostLikely`. */
  function MostLikely(m: Markov, prev: Bytes, options: seq<Bytes>): (w: Bytes)
    requires |options| > 0
    ensures w in options
  {
    options[MostLikelyIndex(m, prev, options)]
  }

  // ---------------------------------------------------------------------
  // Segmentation

  /** `followingWords`: slot `l - 1` holds the `l`-byte word at `i`, or the
      empty string when fewer than `l` bytes remain. */
  function Options(part: Bytes, i: nat): (opts: seq<Bytes>)
    requires i < |part|
    ensures |opts| == MaxWordLen
    ensures opts[0] == part[i..i + 1]
    ensures forall l :: 0 <= l < MaxWordLen && i + l + 1 <= |part| ==>
              |opts[l]| == l + 1 && opts[l] == part[i..i + l + 1]
    ensures forall l :: 0 <= l < MaxWordLen && i + l + 1 > |part| ==> opts[l] == []
  {
    seq(MaxWordLen, l requires 0 <= l < MaxWordLen =>
      if i + l + 1 <= |part| then part[i..i + l + 1] else [])
  }

  /** No count anywhere is positive for the empty word. Training never
      counts it, and without this the scan could pick the empty word and
      stop advancing. */
  ghost predicate NoEmptyCounts(m: Markov) {
    && Unigram(m, []) <= 0
    && forall p :: p in m.table ==> Count(m.table[p], []) <= 0
  }

  /** Under `NoEmptyCounts` the chosen word is a non-empty prefix of what
      remains of the part, at most `MaxWordLen` bytes long. */
  lemma ChosenIsPrefix(m: Markov, part: Bytes, i: nat, prev: Bytes)
    requires NoEmptyCounts(m)
    requires i < |part|
    ensures var w := MostLikely(m, prev, Options(part, i));
      0 < |w| <= MaxWordLen && i + |w| <= |part| && w == part[i..i + |w|]
  {
    var opts := Options(part, i);
    var idx := MostLikelyIndex(m, prev, opts);
    MostLikelyChoice(m, prev, opts);
    assert Score(m, prev, opts[idx], true) <= 0 && Score(m, prev, opts[idx], false) <= 0
           ==> idx == 0;
  }

  /** Ties go to the shortest word: every candidate shorter than the chosen
      one scores strictly less, by bigram count after `prev` when some
      candidate has a positive one, and by unigram count otherwise. */
  lemma ShorterCandidatesScoreLess(m: Markov, part: Bytes, i: nat, prev: Bytes)
    requires NoEmptyCounts(m)
    requires i < |part|
    ensures var opts := Options(part, i);
      var w := MostLikely(m, prev, opts);
      var bigram := SomePositive(m, prev, opts, true);
      forall j :: 0 <= j < |w| - 1 ==>
        opts[j] == part[i..i + j + 1] && Score(m, prev, opts[j], bigram) < Score(m, prev, w, bigram)
  {
    var opts := Options(part, i);
    var idx := MostLikelyIndex(m, prev, opts);
    MostLikelyChoice(m, prev, opts);
    ChosenIsPrefix(m, part, i, prev);
  }

  /** A rule for the next word at offset `i` of a part, given the word
      chosen before it. */
  type Chooser = (Bytes, nat, Bytes) -> Bytes

  /** `w` is a non-empty prefix of `part[i..]` of at most `MaxWordLen`
      bytes. */
  predicate ValidChoice(part: Bytes, i: nat, w: Bytes) {
    0 < |w| <= MaxWordLen && i + |w| <= |part| && w == part[i..i + |w|]
  }

  /** The rule always makes a valid choice, so the scan advances. */
  ghost predicate Advances(c: Chooser) {
    forall part: Bytes, i: nat, prev: Bytes :: i < |part| ==> ValidChoice(part, i, c(part, i, prev))
  }

  /** The Markov model's rule: `MostLikely` among the candidates at `i`. */
  function Choice(m: Markov): Chooser {
    (part: Bytes, i: nat, prev: Bytes) =>
      if i < |part| then MostLikely(m, prev, Options(part, i)) else []
  }

  /** A model that never counts the empty word makes a valid choice
      everywhere. */
  lemma ChoiceAdvances(m: Markov)
    requires NoEmptyCounts(m)
    ensures Advances(Choice(m))
  {
    forall part: Bytes, i: nat, prev: Bytes | i < |part|
      ensures ValidChoice(part, i, Choice(m)(part, i, prev))
    {
      ChosenIsPrefix(m, part, i, prev);
    }
  }

  /** The words `Fields` emits for `part[i..]`, `prev` being the word
      chosen just before (empty at the start of a part). */
  function PartFrom(c: Chooser, part: Bytes, i: nat, prev: Bytes): (ws: seq<Bytes>)
    requires Advances(c)
    requires i <= |part|
    ensures Concat(ws) == part[i..]
    ensures forall k :: 0 <= k < |ws| ==> 0 < |ws[k]| <= MaxWordLen
    decreases |part| - i
  {
    if i == |part| then []
    else
      var w := c(part, i, prev);
      assert ValidChoice(part, i, w);
      var rest := PartFrom(c, part, i + |w|, w);
      assert part[i..] == w + part[i + |w|..];
      [w] + rest
  }

  /** `Markov.Fields`' scan over one whitespace-free part: the chosen words
      lay the part end to end, each one to 20 bytes long. */
  function SplitPart(m: Markov, part: Bytes): (ws: seq<Bytes>)
    requires NoEmptyCounts(m)
    ensures Concat(ws) == part
    ensures forall k :: 0 <= k < |ws| ==> 0 < |ws[k]| <= MaxWordLen
  {
    ChoiceAdvances(m);
    assert part[0..] == part;
    PartFrom(Choice(m), part, 0, [])
  }

  /** `Markov.Fields`. */
  function Fields(m: Markov, text: Bytes): (ws: seq<Bytes>)
    requires NoEmptyCounts(m)
    ensures Concat(ws) == RemoveSpaces(text)
    ensures AllFields(ws)
  {
    var parts := SplitFields(text);
    var f := p => SplitPart(m, p);
    SplitFieldsAreFields(text);
    ConcatSplitFields(text);
    assert Segments(f, parts) by {
      forall k | 0 <= k < |parts| ensures Concat(f(parts[k])) == parts[k] {
        assert parts[k][0..] == parts[k];
      }
    }
    FlatMapSegments(parts, f);
    FlatMap(parts, f)
  }

  // ---------------------------------------------------------------------
  // Properties of training

  /** Training adds to `RawCounts[w]` the number of times `w` occurs in the
      sample. */
  lemma {:induction false} TrainUnigram(m: Markov, prev: Bytes, fields: seq<Bytes>, w: Bytes)
    ensures Unigram(TrainFrom(m, prev, fields), w) == Unigram(m, w) + multiset(fields)[w]
    decreases |fields|
  {
    if |fields| > 0 {
      TrainUnigram(Observe(m, prev, fields[0]), fields[0], fields[1..], w);
      assert fields == [fields[0]] + fields[1..];
    }
  }

  /** Training adds to `Table[p][w]` the number of adjacent pairs (p, w)
      in the sample, the first field counting as following `""`. */
  lemma {:induction false} TrainBigram(m: Markov, prev: Bytes, fields: seq<Bytes>, p: Bytes, w: Bytes)
    ensures Bigram(TrainFrom(m, prev, fields), p, w) == Bigram(m, p, w) + multiset(Pairs(prev, fields))[(p, w)]
    decreases |fields|
  {
    if |fields| > 0 {
      TrainBigram(Observe(m, prev, fields[0]), fields[0], fields[1..], p, w);
    }
  }

  /** Both counting facts, for every word and pair at once. */
  lemma TrainCounts(m: Markov, prev: Bytes, fields: seq<Bytes>)
    ensures forall w :: Unigram(TrainFrom(m, prev, fields), w) == Unigram(m, w) + multiset(fields)[w]
    ensures forall p, w :: Bigram(TrainFrom(m, prev, fields), p, w) == Bigram(m, p, w) + multiset(Pairs(prev, fields))[(p, w)]
  {
    forall w ensures Unigram(TrainFrom(m, prev, fields), w) == Unigram(m, w) + multiset(fields)[w] {
      TrainUnigram(m, prev, fields, w);
    }
    forall p, w ensures Bigram(TrainFrom(m, prev, fields), p, w) == Bigram(m, p, w) + multiset(Pairs(prev, fields))[(p, w)] {
      TrainBigram(m, prev, fields, p, w);
    }
  }

  /** Each field adds one to the unigram total and one to the table total. */
  lemma {:induction false} TrainTotals(m: Markov, prev: Bytes, fields: seq<Bytes>)
    ensures Total(TrainFrom(m, prev, fields).rawCounts) == Total(m.rawCounts) + |fields|
    ensures TableTotal(TrainFrom(m, prev, fields).table) == TableTotal(m.table) + |fields|
    decreases |fields|
  {
    if |fields| > 0 {
      IncrementTotal(m.rawCounts, fields[0]);
      Increment2Total(m.table, prev, fields[0]);
      TrainTotals(Observe(m, prev, fields[0]), fields[0], fields[1..]);
    }
  }

  /** The table holds exactly as many counts as the unigram map. */
  ghost predicate Balanced(m: Markov) {
    TableTotal(m.table) == Total(m.rawCounts)
  }

  /** Training on non-empty fields keeps a model balanced and free of
      counts for the empty word. */
  lemma {:induction false} TrainCorpusInvariants(m: Markov, corpus: seq<Bytes>)
    requires Balanced(m) && NoEmptyCounts(m)
    ensures Balanced(TrainCorpus(m, corpus)) && NoEmptyCounts(TrainCorpus(m, corpus))
    decreases |corpus|
  {
    if |corpus| > 0 {
      var fields := SplitFields(corpus[0]);
      TrainTotals(m, [], fields);
      SplitFieldsAreFields(corpus[0]);
      TrainKeepsNoEmpty(m, [], fields);
      TrainCorpusInvariants(TrainSample(m, fields), corpus[1..]);
    }
  }

  lemma {:induction false} TrainKeepsNoEmpty(m: Markov, prev: Bytes, fields: seq<Bytes>)
    requires NoEmptyCounts(m)
    requires AllFields(fields)
    ensures NoEmptyCounts(TrainFrom(m, prev, fields))
    decreases |fields|
  {
    if |fields| > 0 {
      var m' := Observe(m, prev, fields[0]);
      assert IsField(fields[0]);
      assert fields[0] != [];
      forall p | p in m'.table ensures Count(m'.table[p], []) <= 0 {
        assert Count(m'.table[p], []) == Bigram(m', p, []);
        if p in m.table {
          assert Bigram(m, p, []) == Count(m.table[p], []);
        }
      }
      assert AllFields(fields[1..]) by {
        forall k | 0 <= k < |fields| - 1 ensures IsField(fields[1..][k]) {
          assert fields[1..][k] == fields[k + 1];
        }
      }
      TrainKeepsNoEmpty(m', fields[0], fields[1..]);
    }
  }

  // ---------------------------------------------------------------------
  // Properties of segmentation

  /** Word `k` of `ws`, a segmentation of `part[i..]` that began after the
      word `prev`, is the rule's choice at the offset where it starts,
      given the word chosen before it. */
  ghost predicate ChosenInContext(c: Chooser, part: Bytes, i: nat, prev: Bytes, ws: seq<Bytes>, k: nat)
    requires k < |ws|
  {
    var start := i + |Concat(ws[..k])|;
    start < |part| &&
    ws[k] == c(part, start, if k == 0 then prev else ws[k - 1])
  }

  lemma ChosenInContextShift(c: Chooser, part: Bytes, i: nat, prev: Bytes, w: Bytes, rest: seq<Bytes>, k: nat)
    requires 0 < k < |rest| + 1
    requires ChosenInContext(c, part, i + |w|, w, rest, k - 1)
    ensures ChosenInContext(c, part, i, prev, [w] + rest, k)
  {
    var ws := [w] + rest;
    var single: seq<Bytes> := [w];
    assert ws[..k] == single + rest[..k - 1];
    ConcatAppend(single, rest[..k - 1]);
    assert single[1..] == [];
    assert Concat(single) == w;
    assert ws[k] == rest[k - 1];
    assert ws[k - 1] == if k == 1 then w else rest[k - 2];
  }

  /** Each word of the scan is the rule's choice at the offset where it
      starts, given the word chosen before it, or `prev` for the first. */
  lemma {:induction false} ScanThreading(c: Chooser, part: Bytes, i: nat, prev: Bytes)
    requires Advances(c)
    requires i <= |part|
    ensures forall k :: 0 <= k < |PartFrom(c, part, i, prev)| ==>
      ChosenInContext(c, part, i, prev, PartFrom(c, part, i, prev), k)
    decreases |part| - i
  {
    if i < |part| {
      var w := c(part, i, prev);
      assert ValidChoice(part, i, w);
      var rest := PartFrom(c, part, i + |w|, w);
      ScanThreading(c, part, i + |w|, w);
      var ws := [w] + rest;
      assert PartFrom(c, part, i, prev) == ws;
      assert ws[..0] == [];
      forall k | 0 < k < |rest| + 1 ensures ChosenInContext(c, part, i, prev, [w] + rest, k) {
        ChosenInContextShift(c, part, i, prev, w, rest, k);
      }
    }
  }

  /** In `Markov.Fields`, each word of a part is `MostLikely`'s choice among
      the candidates at the offset where it starts, given the word chosen
      before it, or `""` for the first word of the part. */
  lemma ContextThreading(m: Markov, part: Bytes)
    requires NoEmptyCounts(m)
    ensures var ws := SplitPart(m, part);
      forall k :: 0 <= k < |ws| ==>
        var start := |Concat(ws[..k])|;
        start < |part| &&
        ws[k] == MostLikely(m, if k == 0 then [] else ws[k - 1], Options(part, start))
  {
    ChoiceAdvances(m);
    var ws := SplitPart(m, part);
    ScanThreading(Choice(m), part, 0, []);
    forall k | 0 <= k < |ws|
      ensures |Concat(ws[..k])| < |part|
      ensures ws[k] == MostLikely(m, if k == 0 then [] else ws[k - 1], Options(part, |Concat(ws[..k])|))
    {
      assert ChosenInContext(Choice(m), part, 0, [], ws, k);
    }
  }

  /** A rule that always takes one byte cuts every part into single bytes. */
  lemma {:induction false} ByteScan(c: Chooser, part: Bytes, i: nat, prev: Bytes)
    requires Advances(c)
    requires forall part': Bytes, i': nat, prev': Bytes :: i' < |part'| ==> |c(part', i', prev')| == 1
    requires i <= |part|
    ensures |PartFrom(c, part, i, prev)| == |part| - i
    ensures forall k :: 0 <= k < |part| - i ==> PartFrom(c, part, i, prev)[k] == [part[i + k]]
    decreases |part| - i
  {
    if i < |part| {
      var w := c(part, i, prev);
      assert ValidChoice(part, i, w);
      assert w == part[i..i + 1];
      ByteScan(c, part, i + 1, w);
      var ws := PartFrom(c, part, i, prev);
      assert ws == [w] + PartFrom(c, part, i + 1, w);
      forall k | 0 <= k < |part| - i ensures ws[k] == [part[i + k]] {
        if k > 0 {
          assert ws[k] == PartFrom(c, part, i + 1, w)[k - 1];
        }
      }
    }
  }

  /** With no counts every score is zero, so the untrained model takes the
      first candidate, one byte, every time. */
  lemma UntrainedChoosesBytes(part: Bytes, i: nat, prev: Bytes)
    requires i < |part|
    ensures Choice(Untrained)(part, i, prev) == part[i..i + 1]
  {
    var opts := Options(part, i);
    assert !SomePositive(Untrained, prev, opts, true);
    assert !SomePositive(Untrained, prev, opts, false);
    MostLikelyChoice(Untrained, prev, opts);
  }

  /** An untrained model cuts each part into single bytes. */
  lemma UntrainedSplitsBytes(part: Bytes)
    ensures |SplitPart(Untrained, part)| == |part|
    ensures forall k :: 0 <= k < |part| ==> SplitPart(Untrained, part)[k] == [part[k]]
  {
    var c := Choice(Untrained);
    assert NoEmptyCounts(Untrained);
    ChoiceAdvances(Untrained);
    forall part': Bytes, i': nat, prev': Bytes | i' < |part'| ensures |c(part', i', prev')| == 1 {
      UntrainedChoosesBytes(part', i', prev');
    }
    ByteScan(c, part, 0, []);
  }

  /** `Fields` of a text split at a whitespace byte is `Fields` of the left
      side followed by `Fields` of the right side: every part starts afresh
      with the empty context word. */
  lemma FieldsAtSpace(m: Markov, a: Bytes, sp: Byte, b: Bytes)
    requires NoEmptyCounts(m)
    requires IsSpace(sp)
    ensures Fields(m, a + [sp] + b) == Fields(m, a) + Fields(m, b)
  {
    FlatMapAtSpace(a, sp, b, p => SplitPart(m, p));
  }
}
