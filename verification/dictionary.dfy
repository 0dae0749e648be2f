/** The dictionary model: a sorted vocabulary, binary-search membership,
    and greedy longest-prefix segmentation. */
module Dictionary {
  import opened Text
  import opened Lexicographic

  /** `Words` is meant to be sorted; nothing in the type enforces it. */
  datatype Dictionary = Dictionary(words: seq<Bytes>)

  // ---------------------------------------------------------------------
  // Membership

  ghost predicate Partitioned(ws: seq<Bytes>, x: Bytes, lo: nat, hi: nat) {
    && (forall k :: 0 <= k < lo && k < |ws| ==> Less(ws[k], x))
    && (forall k :: hi <= k < |ws| ==> !Less(ws[k], x))
  }

  /** The bisection of `sort.Search` on `[lo, hi)`, with the test
      `ws[h] >= x`. On a sorted list it finds the first index whose word is
      not below `x`. */
  function SearchRange(ws: seq<Bytes>, x: Bytes, lo: nat, hi: nat): (idx: nat)
    requires lo <= hi <= |ws|
    ensures lo <= idx <= hi
    ensures Sorted(ws) && Partitioned(ws, x, lo, hi) ==> Partitioned(ws, x, idx, idx)
    decreases hi - lo
  {
    if lo < hi then
      var h := (lo + hi) / 2;
      if Less(ws[h], x) then
        var r := SearchRange(ws, x, h + 1, hi);
        assert Sorted(ws) && Partitioned(ws, x, lo, hi) ==> Partitioned(ws, x, h + 1, hi) by {
          if Sorted(ws) && Partitioned(ws, x, lo, hi) {
            forall k | lo <= k <= h ensures Less(ws[k], x) {
              if k < h {
                LessEqLess(ws[k], ws[h], x);
              }
            }
          }
        }
        r
      else
        var r := SearchRange(ws, x, lo, h);
        assert Sorted(ws) && Partitioned(ws, x, lo, hi) ==> Partitioned(ws, x, lo, h) by {
          if Sorted(ws) && Partitioned(ws, x, lo, hi) {
            forall k | h <= k < hi ensures !Less(ws[k], x) {
              if k > h && Less(ws[k], x) {
                LessEqLess(ws[h], ws[k], x);
              }
            }
          }
        }
        r
    else
      lo
  }

  /** `sort.SearchStrings`. */
  function SearchStrings(ws: seq<Bytes>, x: Bytes): (idx: nat)
    ensures idx <= |ws|
    ensures Sorted(ws) ==> Partitioned(ws, x, idx, idx)
  {
    SearchRange(ws, x, 0, |ws|)
  }

  /** `Dictionary.Contains`: binary search, then compare the word found.
      It never claims a word that is absent; on a sorted list it finds every
      word that is present. */
  function Contains(d: Dictionary, x: Bytes): (r: bool)
    ensures r ==> x in d.words
    ensures Sorted(d.words) ==> (r <==> x in d.words)
  {
    var idx := SearchStrings(d.words, x);
    var r := idx < |d.words| && d.words[idx] == x;
    assert Sorted(d.words) && x in d.words ==> r by {
      if Sorted(d.words) && x in d.words {
        var j :| 0 <= j < |d.words| && d.words[j] == x;
        LessIrreflexive(x);
        assert idx <= j;
        if idx < j {
          LessTrichotomy(d.words[idx], x);
        }
      }
    }
    r
  }

  // ---------------------------------------------------------------------
  // Segmentation

  function Limit(part: Bytes): nat {
    if |part| < MaxWordLen then |part| else MaxWordLen
  }

  /** The greedy rule: `n` is the longest length in 2..Limit whose prefix
      the dictionary contains, or 1 when there is none. */
  predicate IsGreedyChoice(d: Dictionary, part: Bytes, n: nat) {
    && 1 <= n <= Limit(part)
    && (n >= 2 ==> Contains(d, part[..n]))
    && (forall k :: n < k <= Limit(part) && 2 <= k ==> !Contains(d, part[..k]))
  }

  /** The inner loop of `Fields`, which tries every candidate length `l`
      from 2 up to 20 or the rest of the part, whichever is smaller, and
      keeps the last one the dictionary contains; `best` is the length of
      the longest word found so far. */
  function LongestFrom(d: Dictionary, part: Bytes, l: nat, best: nat): (n: nat)
    requires 2 <= l <= MaxWordLen + 1
    requires 1 <= best < l && best <= |part|
    ensures best <= n <= |part|
    ensures n == best || (l <= n <= Limit(part) && Contains(d, part[..n]))
    ensures forall k :: n < k <= Limit(part) && l <= k ==> !Contains(d, part[..k])
    decreases MaxWordLen + 1 - l
  {
    if l <= MaxWordLen && l <= |part| then
      LongestFrom(d, part, l + 1, if Contains(d, part[..l]) then l else best)
    else
      best
  }

  function GreedyLen(d: Dictionary, part: Bytes): (n: nat)
    requires |part| > 0
    ensures IsGreedyChoice(d, part, n)
  {
    LongestFrom(d, part, 2, 1)
  }

  /** The words `Fields` emits for one whitespace-free part. */
  function SplitPart(d: Dictionary, part: Bytes): (ws: seq<Bytes>)
    ensures Concat(ws) == part
    ensures forall i :: 0 <= i < |ws| ==> 0 < |ws[i]| <= MaxWordLen
    decreases |part|
  {
    if |part| == 0 then []
    else
      var n := GreedyLen(d, part);
      var w := part[..n];
      var rest := SplitPart(d, part[n..]);
      ConsWord(part, n, w, rest);
      [w] + rest
  }

  /** One step of `SplitPart`: a non-empty prefix followed by words that
      spell out the rest spells out the whole part. */
  lemma ConsWord(part: Bytes, n: nat, w: Bytes, rest: seq<Bytes>)
    requires 1 <= n <= MaxWordLen && n <= |part|
    requires w == part[..n]
    requires Concat(rest) == part[n..]
    requires forall i :: 0 <= i < |rest| ==> 0 < |rest[i]| <= MaxWordLen
    ensures Concat([w] + rest) == part
    ensures forall i :: 0 <= i < |[w] + rest| ==> 0 < |([w] + rest)[i]| <= MaxWordLen
  {
    assert ([w] + rest)[1..] == rest;
    assert part == w + part[n..];
  }

  /** `Dictionary.Fields`. */
  function Fields(d: Dictionary, text: Bytes): (ws: seq<Bytes>)
    ensures Concat(ws) == RemoveSpaces(text)
    ensures AllFields(ws)
    ensures forall i :: 0 <= i < |ws| ==> |ws[i]| <= MaxWordLen
  {
    var parts := SplitFields(text);
    var f := p => SplitPart(d, p);
    SplitFieldsAreFields(text);
    ConcatSplitFields(text);
    FlatMapSegments(parts, f);
    FlatMapBounded(parts, f);
    FlatMap(parts, f)
  }

  lemma {:induction false} FlatMapBounded(parts: seq<Bytes>, f: Bytes -> seq<Bytes>)
    requires forall p :: forall i :: 0 <= i < |f(p)| ==> |f(p)[i]| <= MaxWordLen
    ensures forall i :: 0 <= i < |FlatMap(parts, f)| ==> |FlatMap(parts, f)[i]| <= MaxWordLen
    decreases |parts|
  {
    if |parts| > 0 {
      FlatMapBounded(parts[1..], f);
      var r := FlatMap(parts, f);
      assert r == f(parts[0]) + FlatMap(parts[1..], f);
    }
  }

  // ---------------------------------------------------------------------
  // Training and serialisation

  /** Insert a word into a strictly sorted list unless it is already there. */
  function Insert(ws: seq<Bytes>, w: Bytes): (r: seq<Bytes>)
    requires StrictlySorted(ws)
    ensures StrictlySorted(r)
    ensures forall x :: x in r <==> x in ws || x == w
    decreases |ws|
  {
    if |ws| == 0 then [w]
    else if w == ws[0] then ws
    else if Less(w, ws[0]) then
      assert StrictlySorted([w] + ws) by {
        forall i, j | 0 <= i < j < |[w] + ws| ensures Less(([w] + ws)[i], ([w] + ws)[j]) {
          if i == 0 && j > 1 {
            LessTransitive(w, ws[0], ws[j - 1]);
          }
        }
      }
      [w] + ws
    else
      var rest := Insert(ws[1..], w);
      LessTrichotomy(w, ws[0]);
      assert forall x :: x in rest ==> Less(ws[0], x) by {
        forall x | x in rest ensures Less(ws[0], x) {
          if x != w {
            var j :| 1 <= j < |ws| && ws[j] == x;
          }
        }
      }
      assert StrictlySorted([ws[0]] + rest) by {
        forall i, j | 0 <= i < j < |[ws[0]] + rest| ensures Less(([ws[0]] + rest)[i], ([ws[0]] + rest)[j]) {
          if i == 0 {
            assert rest[j - 1] in rest;
          }
        }
      }
      assert forall x :: x in ws <==> x == ws[0] || x in ws[1..] by {
        assert ws == [ws[0]] + ws[1..];
      }
      [ws[0]] + rest
  }

  function InsertAll(ws: seq<Bytes>, fields: seq<Bytes>): (r: seq<Bytes>)
    requires StrictlySorted(ws)
    ensures StrictlySorted(r)
    ensures forall x :: x in r <==> x in ws || x in fields
    decreases |fields|
  {
    if |fields| == 0 then ws
    else
      var r := InsertAll(Insert(ws, fields[0]), fields[1..]);
      assert forall x :: x in fields <==> x == fields[0] || x in fields[1..] by {
        assert fields == [fields[0]] + fields[1..];
      }
      r
  }

  /** Every field of every document of a corpus, in corpus order. */
  function CorpusFields(corpus: seq<Bytes>): (r: seq<Bytes>)
    ensures AllFields(r)
  {
    if |corpus| == 0 then []
    else
      var r := SplitFields(corpus[0]) + CorpusFields(corpus[1..]);
      SplitFieldsAreFields(corpus[0]);
      r
  }

  /** `TrainDictionary`: the distinct fields of the corpus, sorted. The
      documents are given directly; reading them from a directory is not
      part of this model. */
  function Train(corpus: seq<Bytes>): (d: Dictionary)
    ensures StrictlySorted(d.words)
    ensures forall w :: w in d.words <==> w in CorpusFields(corpus)
  {
    Dictionary(InsertAll([], CorpusFields(corpus)))
  }

  /** `Dictionary.Serialize`: one newline between neighbouring words, and
      nothing else besides the words' own bytes. */
  function Serialize(d: Dictionary): (s: Bytes)
    ensures |d.words| > 0 ==> |s| == |Concat(d.words)| + |d.words| - 1
    ensures AllFields(d.words) ==> RemoveSpaces(s) == Concat(d.words)
    ensures AllFields(d.words) ==> forall i :: 0 <= i < |s| && IsSpace(s[i]) ==> s[i] == 10
  {
    JoinLength(d.words, 10);
    JoinSpaces(d.words, 10);
    RemoveSpacesJoin(d.words, 10);
    Join(d.words, 10)
  }

  /** `DeserializeDictionary`: the whitespace-separated fields, which never
      fails. */
  function Deserialize(data: Bytes): (d: Dictionary)
    ensures AllFields(d.words)
  {
    SplitFieldsAreFields(data);
    Dictionary(SplitFields(data))
  }

  // ---------------------------------------------------------------------
  // Properties

  /** Training is determined by the set of corpus words: any strictly sorted
      list with exactly those words is the trained word list. */
  lemma TrainIsSortedWordSet(corpus: seq<Bytes>, ws: seq<Bytes>)
    requires StrictlySorted(ws)
    requires forall w :: w in ws <==> w in CorpusFields(corpus)
    ensures Train(corpus).words == ws
  {
    StrictlySortedUnique(Train(corpus).words, ws);
  }

  /** Deserialising a serialised dictionary gives back its word list,
      whenever every word is non-empty and whitespace-free (an empty list
      included). */
  lemma RoundTrip(d: Dictionary)
    requires AllFields(d.words)
    ensures Deserialize(Serialize(d)) == d
  {
    SplitJoin(d.words, 10);
  }

  /** Trained dictionaries always satisfy the round trip's condition. */
  lemma TrainedRoundTrip(corpus: seq<Bytes>)
    ensures Deserialize(Serialize(Train(corpus))) == Train(corpus)
  {
    var d := Train(corpus);
    forall i | 0 <= i < |d.words| ensures IsField(d.words[i]) {
      var w := d.words[i];
      assert w in CorpusFields(corpus);
    }
    RoundTrip(d);
  }

  /** Greedy segmentation, stated declaratively: the first word is the
      greedy choice for the whole part and the rest is a greedy segmentation
      of what remains. */
  ghost predicate Greedy(d: Dictionary, part: Bytes, ws: seq<Bytes>)
    decreases |part|
  {
    if |part| == 0 then ws == []
    else
      && |ws| > 0
      && IsGreedyChoice(d, part, |ws[0]|)
      && ws[0] == part[..|ws[0]|]
      && Greedy(d, part[|ws[0]|..], ws[1..])
  }

  /** There is only one greedy choice at each position. */
  lemma GreedyChoiceUnique(d: Dictionary, part: Bytes, n: nat, m: nat)
    requires IsGreedyChoice(d, part, n) && IsGreedyChoice(d, part, m)
    ensures n == m
  {
  }

  /** `SplitPart` is a greedy segmentation, and the only one. */
  lemma {:induction false} SplitPartIsGreedy(d: Dictionary, part: Bytes, ws: seq<Bytes>)
    ensures Greedy(d, part, ws) <==> ws == SplitPart(d, part)
    decreases |part|
  {
    if |part| > 0 {
      var n := GreedyLen(d, part);
      var sp := SplitPart(d, part);
      assert sp[0] == part[..n] && sp[1..] == SplitPart(d, part[n..]);
      SplitPartIsGreedy(d, part[n..], sp[1..]);
      if |ws| > 0 && 0 < |ws[0]| <= |part| {
        SplitPartIsGreedy(d, part[|ws[0]|..], ws[1..]);
        if Greedy(d, part, ws) {
          GreedyChoiceUnique(d, part, n, |ws[0]|);
          assert ws == [ws[0]] + ws[1..];
        }
      }
    }
  }

  /** With an empty word list every part is cut into single bytes. */
  lemma {:induction false} EmptySplitsBytes(part: Bytes)
    ensures |SplitPart(Dictionary([]), part)| == |part|
    ensures forall i :: 0 <= i < |part| ==> SplitPart(Dictionary([]), part)[i] == [part[i]]
    decreases |part|
  {
    if |part| > 0 {
      var d := Dictionary([]);
      var n := GreedyLen(d, part);
      assert n == 1;
      EmptySplitsBytes(part[1..]);
      var r := SplitPart(d, part);
      assert r == [part[..1]] + SplitPart(d, part[1..]);
      forall i | 0 <= i < |part| ensures r[i] == [part[i]] {
        if i > 0 {
          assert r[i] == SplitPart(d, part[1..])[i - 1];
        }
      }
    }
  }

  /** `Fields` of a text split at a whitespace byte is `Fields` of the left
      side followed by `Fields` of the right side. */
  lemma FieldsAtSpace(d: Dictionary, a: Bytes, sp: Byte, b: Bytes)
    requires IsSpace(sp)
    ensures Fields(d, a + [sp] + b) == Fields(d, a) + Fields(d, b)
  {
    FlatMapAtSpace(a, sp, b, p => SplitPart(d, p));
  }
}
