# spacesplice in Dafny

`spacesplice` puts the spaces back into text whose whitespace was removed.
Every model is a *Fielder* with a `Fields(text)` method. Every finished
model's `Fields` splits the text at its whitespace (Go's `strings.Fields`),
then cuts every whitespace-free part into words. The forest's `Fields` is
an unfinished stub that returns no words. This project models the
segmentation core of the five models, and of the training data they are
built from, over byte strings. Each module below is named with its Dafny
file and, separately, the Go file it models:

- `Text` — text.dfy; models Go's `strings.Fields` and `strings.Join` as
  the Go files call them. It holds ASCII whitespace, `SplitFields` (the
  byte-level `strings.Fields`), concatenation, `Join`, `MaxWordLen`
  (markov.go's `maxWordLen`, 20), and `FlatMap`, the "split at whitespace,
  segment every part" shape that every finished model's `Fields` has.
- `Runs` — runs.dfy; models rnn.go (`rnnBoundedSample`, the `Fields`
  cutting loop) and boost_stumps.go (the sample loop of
  `TrainBoostStumps`, the `Fields` cutting loop). It holds the sample extractor that the boosted-stump,
  forest and recurrent models each copy: it turns a document into its
  joined bytes plus a per-byte "last byte of a word" flag. It also holds
  the map-based form of the extractor that the boosted-stump and forest
  trainers use, and the cutting loop that the boosted-stump and recurrent
  `Fields` share. The Markov trainer does not use the extractor: it counts
  the `strings.Fields` of each document directly.
- `Lexicographic` — order.dfy; models Go's byte-wise string order, which
  dictionary.go relies on through `sort.Strings` and `sort.SearchStrings`.
- `Dictionary` — dictionary.dfy; models dictionary.go: binary-search
  `Contains`, greedy longest-prefix `Fields`, training to a sorted word
  list, and the newline serialization. `DictionaryExamples`
  (dictionary_examples.dfy, also dictionary.go) works through the "aand"
  and "the cat sat on the mat" examples.
- `Counts` — counts.dfy, and `Markov` — markov.dfy; both model markov.go:
  unigram and bigram counting in `trainMarkovSample`, the `MostLikely`
  rule (bigram count first, then unigram count, then the first option,
  with a strict `>` throughout), and the `Fields` scan.
- `BoostStumps` — boost_stumps.dfy; models boost_stumps.go:
  - training samples;
  - the partial Fisher–Yates cap to 50000 samples;
  - the ±1 labels and `ValueAt`;
  - the stump `Classify`;
  - the exhaustive `BestClassifier` search;
  - the `Fields` cutting loop.
- `Forest` — forest.dfy; models forest.go: samples, `Attr`, `Class`, the
  41 attribute offsets, and the two unfinished stubs.
- `Rnn` — rnn.dfy; models rnn.go:
  - `rnnBoundedSample` and the 128-byte windows;
  - the sample set: `Len`, `Copy`, `Swap`, `Subset`, `GetSample`;
  - the 8192-window cap;
  - the `Fields` cutting loop.
- `Spacesplice` — spacesplice.dfy; models spacesplice.go: the `Fielder`
  interface over the five models.

Points where the Go code does something a reader might not expect, and
which the model keeps as written:

- markov.go's `MostLikely` replaces its best option only on a strictly
  larger count (markov.go:71-74 and :83-86). It therefore keeps the
  *first* maximum, which is the *shortest* candidate. When no bigram or
  unigram count is positive it returns option 0, the one-byte candidate
  (markov.go:88). See `Markov.ShorterCandidatesScoreLess` and
  `Markov.UntrainedSplitsBytes`.
- `boostClassifier.Classify` reads `x.ValueAt(i)`, where `i` is the
  sample's index in the list, and never uses `RelIdx`
  (boost_stumps.go:193-194). `BoostStumps.ClassifyIgnoresOffset` and
  `BoostStumps.BestClassifier` show the consequence: the search always
  returns offset -15. `BoostStumps.ClassifySingleton` shows that on the
  one-sample lists `Fields` builds (boost_stumps.go:125-130), a stump tests
  the focal byte.
- forest.go's `Fields` returns an empty result, with its call to
  `strings.Fields` commented out (forest.go:91-96). `DeserializeForest`
  always fails with "not yet implemented" (forest.go:84-87). The model
  reproduces both stubs.
- `Dictionary.Fields` bounds candidates by markov.go's `maxWordLen`
  (dictionary.go:60, markov.go:10), not by the unused `dictionaryMaxWord`
  (dictionary.go:8). Both are 20.

Bytes are `int`s in `0..255`. Counts and indices are unbounded integers.
Weights, dot products and network outputs are `real`s.

## Model

| member | source | states |
|---|---|---|
| Text.SplitFieldsAreFields | dictionary.go:57 | every part `strings.Fields` yields is non-empty and free of whitespace |
| Text.ConcatSplitFields | dictionary.go:57 | the parts, laid end to end, are the text with its whitespace removed |
| Text.SplitFieldsAtSpace | dictionary.go:57 | the parts of a text split at a whitespace byte are the parts of the left side followed by those of the right side |
| Text.SplitJoin | dictionary.go:80-82 | joining non-empty whitespace-free words with a whitespace separator and splitting again gives back the same words |
| Text.JoinLength | dictionary.go:80-82 | `strings.Join` puts exactly one separator between neighbouring words |
| Text.RemoveSpacesJoin | dictionary.go:80-82 | deleting the whitespace of whitespace-free words joined by a whitespace separator lays the words end to end |
| Text.JoinSpaces | dictionary.go:80-82 | joining whitespace-free words adds no whitespace byte other than the separator |
| Runs.Extract | rnn.go:217-227 | the extractor yields one flag per byte; the bytes are the document without whitespace; the number of set flags is the number of fields |
| Runs.BoundariesMatchFlags | boost_stumps.go:53-64 | the boundary set built with a running index holds exactly the indices whose word-end flag is set, and nothing outside the joined bytes |
| Runs.CutFrom | rnn.go:95-105 | the cutting loop emits only non-empty words, which concatenate to the buffer followed by the bytes |
| Runs.Cut | rnn.go:95-105 | the loop started on an empty buffer emits non-empty words that concatenate to the part |
| Runs.CutEndFlags | rnn.go:95-105 | cutting the joined words at their word-end flags gives the words back |
| Runs.EndFlagsOfCut | rnn.go:95-105 | the loop cuts after exactly the bytes whose decision is true, and after the last byte |
| Runs.CutExtract | rnn.go:217-227 | cutting an extracted run at its own flags recovers the document's fields |
| Runs.CutPartEnds | boost_stumps.go:124-138 | a part is cut after exactly the bytes the model decides end a word, and after its last byte |
| Runs.CutPart | boost_stumps.go:124-138 | one part cut at the model's decisions yields non-empty words that concatenate to the part |
| Runs.CutPartPerfect | rnn.go:95-105 | decisions that are true exactly at the word ends of some words split their concatenation back into those words |
| Runs.CutFields | boost_stumps.go:118-141 | a per-byte segmenter's words are non-empty and whitespace-free, and concatenate to the text without whitespace |
| Runs.CutFieldsAtSpace | rnn.go:84-85 | a per-byte segmenter never emits a word that spans whitespace |
| Lexicographic.StrictlySortedUnique | dictionary.go:30-34 | two strictly sorted lists with the same elements are equal, so a sorted, deduplicated word list is determined by its word set |
| Dictionary.SearchRange | dictionary.go:46 | binary search in `lo..hi` returns an index in `lo..hi`; on a sorted list already partitioned around `x` outside that range, every word before the index is smaller than `x` and every word from it on is not |
| Dictionary.SearchStrings | dictionary.go:46 | the search returns an index in `0..len`; on a sorted list every word before it is smaller than `x` and every word from it on is not |
| Dictionary.Contains | dictionary.go:45-51 | a true answer means `x` is in the list; on a sorted list the answer is true exactly when `x` is in the list |
| Dictionary.LongestFrom | dictionary.go:60-64 | the inner loop from length `l` on returns either the best length so far or a longer length whose prefix the dictionary contains, and no longer prefix up to `min(20, len)` is in the dictionary |
| Dictionary.GreedyLen | dictionary.go:59-64 | the chosen length is the largest length in `2..min(20, len)` whose prefix the dictionary contains, or 1 when there is none |
| Dictionary.SplitPart | dictionary.go:58-67 | the words cut from a part concatenate to the part, and each has 1 to 20 bytes |
| Dictionary.SplitPartIsGreedy | dictionary.go:58-67 | a segmentation satisfies the declarative greedy rule at every step exactly when it is the one `Fields` computes |
| Dictionary.EmptySplitsBytes | dictionary.go:46-48 | with an empty word list every part is cut into single bytes |
| Dictionary.Fields | dictionary.go:55-70 | the words are whitespace-free, have 1 to 20 bytes, and concatenate to the text without whitespace |
| Dictionary.FieldsAtSpace | dictionary.go:57 | parts are segmented independently, so no word spans whitespace |
| Dictionary.CorpusFields | dictionary.go:22-26 | the words collected from every document are non-empty and whitespace-free |
| Dictionary.Insert | dictionary.go:30-34 | adding a word to a strictly sorted list keeps it strictly sorted and adds exactly that word to its element set |
| Dictionary.InsertAll | dictionary.go:21-34 | collecting fields into a strictly sorted list yields the union of the word sets |
| Dictionary.Train | dictionary.go:20-36 | the trained word list is strictly increasing and holds exactly the fields of all documents |
| Dictionary.TrainIsSortedWordSet | dictionary.go:20-36 | any strictly sorted list of exactly the corpus fields is the trained word list |
| Dictionary.Deserialize | dictionary.go:40-42 | every deserialized word is non-empty and whitespace-free |
| Dictionary.Serialize | dictionary.go:80-82 | a non-empty list serializes to its words plus one separator between neighbours; for whitespace-free words, every whitespace byte of the output is a newline, and deleting them gives the words laid end to end |
| Dictionary.RoundTrip | dictionary.go:80-82 | deserializing a serialized dictionary of non-empty whitespace-free words, including the empty dictionary, gives it back |
| Dictionary.TrainedRoundTrip | dictionary.go:40-42 | every trained dictionary survives a serialize/deserialize round trip |
| DictionaryExamples.GreedyExample | dictionary.go:59-64 | with words {a, an, and}, "aand" is cut into "a", "and" |
| DictionaryExamples.CatTrain | dictionary.go:20-36 | training on "the cat sat on the mat" gives [cat, mat, on, sat, the] |
| DictionaryExamples.CatGreedy | dictionary.go:58-67 | the greedy rule reads "thecatsatonthemat" as the, cat, sat, on, the, mat |
| DictionaryExamples.CatFields | dictionary.go:55-70 | that dictionary cuts "thecatsatonthemat" into the, cat, sat, on, the, mat |
| Counts.Increment | markov.go:125 | incrementing a counter raises the count of its key by one and leaves every other count alone |
| Counts.IncrementTotal | markov.go:125 | an increment raises the total of a counter by one |
| Counts.Increment2 | markov.go:130-135 | incrementing a table cell, creating the row if missing, raises that cell by one and no other |
| Counts.Increment2Total | markov.go:130-135 | a cell increment raises the table total by one |
| Markov.TrainSample | markov.go:123-136 | a sample raises `RawCounts[w]` by the occurrences of `w` in it and `Table[p][w]` by its adjacent pairs (p, w), the first field following "" |
| Markov.TrainUnigram | markov.go:124-125 | training raises `RawCounts[w]` by the number of occurrences of `w` in the sample |
| Markov.TrainBigram | markov.go:126-135 | training raises `Table[p][w]` by the number of adjacent pairs (p, w) in the sample, the first field following "" |
| Markov.TrainTotals | markov.go:123-137 | a sample of n fields raises both the unigram total and the table total by n |
| Markov.TrainCorpusInvariants | markov.go:38-49 | training keeps the table total equal to the unigram total and never counts the empty word |
| Markov.TrainKeepsNoEmpty | markov.go:123-137 | training on non-empty fields never gives the empty word a count |
| Markov.Train | markov.go:29-50 | a model trained from empty maps on any corpus has equal table and unigram totals and no count for the empty word |
| Markov.Scan | markov.go:67-76 | a scan ends on a valid option index, and on option 0 when no score was positive |
| Markov.ScanKeepsState | markov.go:67-76 | a scan keeps the largest positive score seen and the first option that has it; an option replaces it only with a strictly larger score |
| Markov.MostLikelyChoice | markov.go:66-89 | the choice is the first option with the maximal bigram count after `previous` if any is positive; else the first with the maximal unigram count if any is positive; else option 0 |
| Markov.MostLikely | markov.go:78-88 | the returned word is one of the options |
| Markov.Options | markov.go:99-102 | slot l holds the (l+1)-byte prefix of the rest of the part when it exists, and the empty string otherwise |
| Markov.ChosenIsPrefix | markov.go:98-105 | when the empty word has no count, the chosen word is a non-empty prefix of the rest of the part, at most 20 bytes long |
| Markov.ShorterCandidatesScoreLess | markov.go:67-79 | every candidate shorter than the chosen word scores strictly less, so ties go to the shortest candidate |
| Markov.ChoiceAdvances | markov.go:98-105 | when the empty word has no count, the rule `MostLikely(lastWord, followingWords)` picks a non-empty prefix of the rest of the part at every offset |
| Markov.PartFrom | markov.go:98-105 | for a rule that always picks a non-empty prefix, the scan terminates; its words have 1 to 20 bytes and concatenate to the rest of the part |
| Markov.SplitPart | markov.go:96-105 | the scan over one part yields words of 1 to 20 bytes that concatenate to the part |
| Markov.Fields | markov.go:93-109 | the words are whitespace-free and concatenate to the text without whitespace |
| Markov.ScanThreading | markov.go:96-105 | each word of the scan is the rule's choice at the offset where it starts, given the word chosen before it |
| Markov.ContextThreading | markov.go:96-103 | each word is `MostLikely`'s choice at the offset where it starts, given the previous word of the part, or "" for the first word |
| Markov.ByteScan | markov.go:98-105 | a rule that always takes one byte cuts the part into its single bytes |
| Markov.UntrainedChoosesBytes | markov.go:81-88 | with no counts, `MostLikely` returns the one-byte candidate |
| Markov.UntrainedSplitsBytes | markov.go:81-88 | an untrained model cuts every part into single bytes |
| Markov.FieldsAtSpace | markov.go:96-97 | the context is reset at each part, so the words of a text split at whitespace are the words of the two sides |
| BoostStumps.DocumentSamples | boost_stumps.go:52-71 | a document yields one sample per byte of its joined fields |
| BoostStumps.SamplesAgreeWithExtract | boost_stumps.go:52-71 | sample i holds the joined bytes, index i and the word-end flag of byte i that the shared extractor gives |
| BoostStumps.CorpusSamples | boost_stumps.go:42-72 | a corpus yields one sample per non-whitespace byte, and every sample points at a byte of its document |
| BoostStumps.CorpusSamplesAppend | boost_stumps.go:42-72 | the samples of two corpora read in turn are the first corpus's samples followed by the second's |
| BoostStumps.CorpusSamplesOfOne | boost_stumps.go:52-71 | a one-document corpus yields exactly that document's samples |
| BoostStumps.DocumentSamplesWellFormed | boost_stumps.go:65-71 | every sample of a document points at a byte of it |
| BoostStumps.ValueAt | boost_stumps.go:166-178 | the probe returns `document[idx+k]` when that index is in range, and 0 otherwise |
| BoostStumps.WellFormedDefined | boost_stumps.go:166-178 | for a sample inside its document, the probe is defined at every offset |
| BoostStumps.CapSamples | boost_stumps.go:74-80 | more than 50000 samples are cut to exactly 50000, drawn from the original (a sub-multiset); otherwise the list is unchanged |
| BoostStumps.Labels | boost_stumps.go:89-95 | one label per sample: +1 exactly for the boundary samples, -1 exactly for the others |
| BoostStumps.LabelsMatchFlags | boost_stumps.go:89-95 | the labels of a document's samples are +1 exactly at its word-end flags |
| BoostStumps.TrainingSet | boost_stumps.go:42-95 | the boosting loop starts from the corpus samples, capped at 50000 as a sub-multiset, labelled ±1 by their word-end flags, and every one of them can be probed by the stump search |
| BoostStumps.Classify | boost_stumps.go:191-201 | one vote per sample, each +1 or -1; vote i is +1 exactly when the byte at offset i, the list index, equals the stump's value |
| BoostStumps.WellFormedProbeable | boost_stumps.go:193-194 | lists of samples inside their documents can be classified |
| BoostStumps.ClassifyIgnoresOffset | boost_stumps.go:191-201 | stumps that differ only in `RelIdx` vote identically |
| BoostStumps.ClassifySingleton | boost_stumps.go:125-130 | on a one-sample list a stump tests only the sample's own byte |
| BoostStumps.DotIsWeighted | boost_stumps.go:212-220 | the search loop's running dot product is the weighted sum of the stump's votes |
| BoostStumps.BestClassifier | boost_stumps.go:205-232 | the search always returns a stump; its offset is -15; its score is maximal over offsets -15..5 and all byte values; every smaller value scores strictly less |
| BoostStumps.Decisions | boost_stumps.go:124-131 | byte i of a part ends a word exactly when the classification of its one-sample list is positive |
| BoostStumps.Fields | boost_stumps.go:118-141 | the words are non-empty and whitespace-free, and concatenate to the text without whitespace |
| Forest.DocumentSamples | forest.go:48-68 | a document yields one sample per byte of its joined fields |
| Forest.SamplesAgreeWithExtract | forest.go:48-68 | sample i holds the joined bytes, index i and the shared extractor's word-end flag of byte i |
| Forest.Attr | forest.go:121-127 | attribute a is the byte `textDoc[index+a]` when in range, and otherwise the out-of-document value, which differs from every byte, NUL included |
| Forest.AttrAgreesWithValueAt | forest.go:121-127 | wherever the boosted-stump probe is defined, it reads the same byte as an in-range forest attribute, and 0 where the attribute is the out-of-document value |
| Forest.Class | forest.go:129-131 | the class is the end-of-field flag |
| Forest.ClassesAreFlags | forest.go:62-67 | the classes of a document's samples are its word-end flags |
| Forest.AttrRange | forest.go:72-74 | the loop collects `lo..hi` in increasing order, each offset once |
| Forest.AllAttrs | forest.go:71-74 | the attributes are the 41 offsets -20..20 in increasing order |
| Forest.Fields | forest.go:91-96 | the unfinished `Fields` returns no words for any text |
| Forest.FieldsStubLosesText | forest.go:91-96 | the stub's words spell out the text without whitespace only when the text has no fields |
| Forest.Deserialize | forest.go:84-87 | deserialization fails on every input with "not yet implemented" |
| Rnn.BoundedSample | rnn.go:217-227 | the append loop produces exactly the shared extractor's bytes and flags |
| Rnn.Windows | rnn.go:154-157 | there are `len/128` windows; window k holds bytes and flags `128k..128k+127`; the tail is dropped |
| Rnn.WindowsTile | rnn.go:154-157 | the windows laid end to end are the data up to the dropped tail |
| Rnn.CorpusSamples | rnn.go:143-159 | the corpus sample set pairs every 128-byte window with 128 flags |
| Rnn.CorpusSamplesAppend | rnn.go:144-158 | the sample set of two corpora read in turn is the first corpus's windows and flags followed by the second's |
| Rnn.CorpusSamplesOfOne | rnn.go:153-157 | a one-document corpus yields exactly the windows of that document's bounded sample |
| Rnn.Copy | rnn.go:171-179 | the copy has the same windows and flags as the original |
| Rnn.Swap | rnn.go:181-184 | windows i and j are exchanged together with their flags and nothing else moves; pairing and the multiset of windows are kept |
| Rnn.SwapTwice | rnn.go:181-184 | swapping the same pair twice restores the set |
| Rnn.Subset | rnn.go:201-206 | the subset has `end - start` windows, window k being `start + k` with its flags; pairing is kept |
| Rnn.Truncate | rnn.go:54-56 | after the cap at most 8192 windows remain, the windows and the flags each a prefix of the original; a smaller set is unchanged |
| Rnn.Encode | rnn.go:188-193 | the input has 256 entries per byte; block i is the one-hot vector of byte i |
| Rnn.DecodeEncode | rnn.go:192-193 | the one-hot input determines the window: reading each block's hot index gives the bytes back |
| Rnn.Targets | rnn.go:194-196 | the output is 1 exactly where the flag is set and 0 elsewhere |
| Rnn.GetSample | rnn.go:186-199 | input length `len*256` with block i one-hot at byte i; output length `len`, 1 exactly at the set flags and 0 exactly at the unset ones |
| Rnn.GetSampleDecodes | rnn.go:186-199 | the window is recovered from its sample's input |
| Rnn.Decisions | rnn.go:96-101 | byte i of a part ends a word exactly when the network's first output at i is positive |
| Rnn.Fields | rnn.go:82-108 | the words are non-empty and whitespace-free, and concatenate to the text without whitespace |
| Spacesplice.Fields | spacesplice.go:15-25 | every finished model returns non-empty, whitespace-free words that concatenate to the text without whitespace; the forest returns none |
| Spacesplice.FieldsAtSpace | spacesplice.go:18-24 | no model joins bytes across whitespace |

## Left out

- Reading the corpus: the model takes a corpus as a sequence of documents. Directory listing, file reading and skipping names that start with `.` (util.go, and the loops in every trainer) are I/O.
- The command-line programs (addspaces, train, textfetch): argument handling, stdin reading with goroutines, and web crawling.
- serializer.go and the `Trainers` registry: they only register types. The two trainers the registry offers appear as `Markov.Train` and `Dictionary.Train`.
- gob and JSON encodings: `Markov.Serialize`/`DeserializeMarkov`, `BoostStumps.Serialize`/`DeserializeBoostStumps`, `Forest.Serialize` and the RNN network's serialization use foreign library formats.
- The boosting loop (`boosting.Gradient`, `ExpLoss`, 20 steps, `SumClassifier`): external and in floating point. The trained ensemble enters `BoostStumps.Fields` only as its score on a one-sample list.
- `idtrees.BuildForest`/`ID3` and the forest constants: external. `Forest.Forest` carries only an abstract vote, which the stub `Fields` never consults.
- The recurrent network (`createRNN`, GRUs, dense layers, Adam, SGD, sigmoid cost, the batch learner): external. `Rnn.Fields` takes the network's first output per position as a function of the part and the position.
- Randomness: `rand.Seed`, `rand.Intn` and `sgd.ShuffleSampleSet`. `BoostStumps.CapSamples` takes the random numbers as an arbitrary function. The shuffle before the RNN cap is left out; it only swaps windows, and `Rnn.Swap` keeps them paired.
- Floating point: weights, dot products and outputs are exact reals, so float64 rounding in `BestClassifier`'s sums is not modelled.
- Unicode: `strings.Fields` also splits at Unicode spaces such as U+0085 and U+00A0. The model works on bytes and uses the ASCII whitespace set {9, 10, 11, 12, 13, 32}.
- Markov counts: Go's `int` counters could overflow in principle. The model's counts are unbounded.
- Markov.Fields: requires that no count for the empty word is positive. Every trained model satisfies this (`Markov.Train`). A model read from hand-edited JSON could break it, and then the Go loop would choose `""` and never advance.
- BoostStumps.ValueAt: requires that the probe stay in range on the side its guard does not check. The Go method panics when a sample's index lies outside its document (boost_stumps.go:171, :176). No Go caller reaches that case: every sample the trainer or `Fields` builds points into its document (`BoostStumps.WellFormedDefined`).
- Rnn.Subset: requires `end` within the lengths of both slices. Go also allows slicing up to the slices' capacity.
- Rnn.Len: the number of windows; it has no contract of its own, and `Rnn.Subset` and `Rnn.Truncate` state their results through it.
