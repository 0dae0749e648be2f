/** Worked examples of the dictionary model: the greedy rule on a tiny
    vocabulary, and training then segmenting one short document. */
module DictionaryExamples {
  import opened Text
  import opened Lexicographic
  import opened Dictionary

  const A: Bytes := [97]
  const AN: Bytes := [97, 110]
  const AND: Bytes := [97, 110, 100]
  const AAND: Bytes := [97, 97, 110, 100]

  /** A greedy first word followed by a greedy segmentation of the rest is
      a greedy segmentation. */
  lemma GreedyCons(d: Dictionary, w: Bytes, rest: Bytes, ws: seq<Bytes>)
    requires |w| > 0
    requires IsGreedyChoice(d, w + rest, |w|)
    requires Greedy(d, rest, ws)
    ensures Greedy(d, w + rest, [w] + ws)
  {
    var p := w + rest;
    assert p[..|w|] == w;
    assert p[|w|..] == rest;
    assert ([w] + ws)[1..] == ws;
  }

  lemma SmallSorted()
    ensures Sorted([A, AN, AND])
  {
    assert Less(A, AN) && Less(AN, AND) && Less(A, AND);
  }

  /** In "aand" no prefix of two or more bytes is a word: each has "a" as
      its second byte, which none of "an" and "and" has. */
  lemma SmallFirstChoice(p: Bytes)
    requires p == AAND
    ensures IsGreedyChoice(Dictionary([A, AN, AND]), p, 1)
  {
    var d := Dictionary([A, AN, AND]);
    SmallSorted();
    forall k | 1 < k <= Limit(p) ensures !Contains(d, p[..k]) {
      assert |p[..k]| == k && p[..k][1] == 97;
    }
  }

  lemma SmallSecondChoice(p: Bytes)
    requires p == AND
    ensures IsGreedyChoice(Dictionary([A, AN, AND]), p, 3)
  {
    var d := Dictionary([A, AN, AND]);
    SmallSorted();
    assert p[..3] == AND;
  }

  lemma GreedyExample()
    ensures Fields(Dictionary([A, AN, AND]), AAND) == [A, AND]
  {
    var d := Dictionary([A, AN, AND]);
    var q := AND;
    var p := A + q;
    assert p == AAND;
    SmallSecondChoice(q);
    assert q + [] == q;
    assert Greedy(d, [], []);
    GreedyCons(d, q, [], []);
    SmallFirstChoice(p);
    GreedyCons(d, A, q, [AND]);
    SplitPartIsGreedy(d, p, [A, AND]);
    SplitFieldsOfField(p);
    assert FlatMap([p], w => SplitPart(d, w)) == SplitPart(d, p) + FlatMap([], w => SplitPart(d, w));
  }

  const THE: Bytes := [116, 104, 101]
  const CAT: Bytes := [99, 97, 116]
  const SAT: Bytes := [115, 97, 116]
  const ON: Bytes := [111, 110]
  const MAT: Bytes := [109, 97, 116]
  const DOC: Bytes := THE + [32] + CAT + [32] + SAT + [32] + ON + [32] + THE + [32] + MAT
  const RUN: Bytes := THE + CAT + SAT + ON + THE + MAT

  lemma CatSorted()
    ensures StrictlySorted([CAT, MAT, ON, SAT, THE])
  {
  }

  /** The document is its words joined with single spaces. */
  lemma DocIsJoin(fs: seq<Bytes>)
    requires fs == [THE, CAT, SAT, ON, THE, MAT]
    ensures Join(fs, 32) == DOC
  {
    assert Join(fs[5..], 32) == MAT;
    assert Join(fs[4..], 32) == THE + [32] + MAT;
    assert Join(fs[3..], 32) == ON + [32] + THE + [32] + MAT;
    assert Join(fs[2..], 32) == SAT + [32] + ON + [32] + THE + [32] + MAT;
    assert Join(fs[1..], 32) == CAT + [32] + SAT + [32] + ON + [32] + THE + [32] + MAT;
  }

  lemma CatTrain()
    ensures Train([DOC]).words == [CAT, MAT, ON, SAT, THE]
  {
    var fs := [THE, CAT, SAT, ON, THE, MAT];
    DocIsJoin(fs);
    SplitJoin(fs, 32);
    assert CorpusFields([DOC]) == fs;
    CatSorted();
    TrainIsSortedWordSet([DOC], [CAT, MAT, ON, SAT, THE]);
  }

  /** With only words of at most three bytes, the greedy choice is decided
      by the prefixes of length two and three. */
  lemma ShortWordsChoice(d: Dictionary, p: Bytes, n: nat)
    requires Sorted(d.words)
    requires forall w :: w in d.words ==> |w| <= 3
    requires 1 <= n <= Limit(p)
    requires n >= 2 ==> p[..n] in d.words
    requires forall k :: n < k <= 3 && k <= Limit(p) && 2 <= k ==> p[..k] !in d.words
    ensures IsGreedyChoice(d, p, n)
  {
  }

  const WORDS: seq<Bytes> := [CAT, MAT, ON, SAT, THE]

  /** One step of segmenting with the trained words: a word of the list
      that no longer listed word extends is the greedy choice. */
  lemma CatStep(w: Bytes, rest: Bytes, ws: seq<Bytes>)
    requires w in WORDS
    requires |w| < 3 && |rest| > 0 ==> (w + rest)[..3] !in WORDS
    requires Greedy(Dictionary(WORDS), rest, ws)
    ensures Greedy(Dictionary(WORDS), w + rest, [w] + ws)
  {
    var p := w + rest;
    CatSorted();
    StrictlySortedIsSorted(WORDS);
    assert p[..|w|] == w;
    assert 2 <= |w| <= 3;
    ShortWordsChoice(Dictionary(WORDS), p, |w|);
    GreedyCons(Dictionary(WORDS), w, rest, ws);
  }

  lemma RunIsField()
    ensures IsField(RUN)
  {
  }

  /** The greedy segmentation of the last three words. */
  lemma CatTail(s3: Bytes)
    requires s3 == ON + THE + MAT
    ensures Greedy(Dictionary(WORDS), s3, [ON, THE, MAT])
  {
    var none: seq<Bytes> := [];
    assert Greedy(Dictionary(WORDS), [], none);
    CatStep(MAT, [], none);
    var s5 := MAT + [];
    CatStep(THE, s5, [MAT]);
    var s4 := THE + s5;
    assert (ON + s4)[..3] == [111, 110, 116];
    CatStep(ON, s4, [THE, MAT]);
    assert s3 == ON + s4;
  }

  /** The greedy segmentation of the last four words. */
  lemma CatMiddle(s2: Bytes)
    requires s2 == SAT + ON + THE + MAT
    ensures Greedy(Dictionary(WORDS), s2, [SAT, ON, THE, MAT])
  {
    var s3 := ON + THE + MAT;
    CatTail(s3);
    CatStep(SAT, s3, [ON, THE, MAT]);
    assert s2 == SAT + s3;
    assert [SAT] + [ON, THE, MAT] == [SAT, ON, THE, MAT];
  }

  /** The greedy segmentation of the whole run. */
  lemma CatGreedy(p: Bytes)
    requires p == RUN
    ensures Greedy(Dictionary(WORDS), p, [THE, CAT, SAT, ON, THE, MAT])
  {
    var s2 := SAT + ON + THE + MAT;
    CatMiddle(s2);
    CatStep(CAT, s2, [SAT, ON, THE, MAT]);
    var s1 := CAT + s2;
    CatStep(THE, s1, [CAT, SAT, ON, THE, MAT]);
    assert THE + s1 == p;
    assert [THE] + [CAT, SAT, ON, THE, MAT] == [THE, CAT, SAT, ON, THE, MAT];
  }

  /** The trained dictionary cuts "thecatsatonthemat" back into its words. */
  lemma CatFields(p: Bytes)
    requires p == RUN
    ensures Fields(Dictionary(WORDS), p) == [THE, CAT, SAT, ON, THE, MAT]
  {
    var d := Dictionary(WORDS);
    var ws := [THE, CAT, SAT, ON, THE, MAT];
    CatGreedy(p);
    SplitPartIsGreedy(d, p, ws);
    RunIsField();
    SplitFieldsOfField(p);
    var f := w => SplitPart(d, w);
    assert FlatMap([p], f) == f(p) + FlatMap([], f);
  }
}
