/** The `Fielder` interface: every model splits a text into words. This
    module gathers the five models behind one `Fields` and states what they
    have in common. */
module Spacesplice {
  import opened Text
  import Runs
  import Dictionary
  import Markov
  import BoostStumps
  import Forest
  import Rnn

  /** A trained model of one of the five kinds. */
  datatype Fielder =
    | DictionaryFielder(dict: Dictionary.Dictionary)
    | MarkovFielder(markov: Markov.Markov)
    | BoostFielder(classify: BoostStumps.BoostSample -> real)
    | ForestFielder(forest: Forest.Forest)
    | RnnFielder(score: (Bytes, nat) -> real)

  /** What a model needs before it can segment: a Markov model must not
      count the empty word, which every trained one satisfies. */
  ghost predicate Ready(f: Fielder) {
    f.MarkovFielder? ==> Markov.NoEmptyCounts(f.markov)
  }

  /** `Fielder.Fields`: every finished model returns non-empty,
      whitespace-free words that spell out the text without its
      whitespace; the forest's unfinished method returns nothing. */
  function Fields(f: Fielder, text: Bytes): (ws: seq<Bytes>)
    requires Ready(f)
    ensures !f.ForestFielder? ==> Concat(ws) == RemoveSpaces(text) && AllFields(ws)
    ensures f.ForestFielder? ==> ws == []
  {
    match f
    case DictionaryFielder(d) => Dictionary.Fields(d, text)
    case MarkovFielder(m) => Markov.Fields(m, text)
    case BoostFielder(c) => BoostStumps.Fields(c, text)
    case ForestFielder(forest) => Forest.Fields(forest, text)
    case RnnFielder(s) => Rnn.Fields(s, text)
  }

  /** No model joins bytes across whitespace: the words of a text split at
      a whitespace byte are the words of the two sides. */
  lemma FieldsAtSpace(f: Fielder, a: Bytes, sp: Byte, b: Bytes)
    requires Ready(f)
    requires IsSpace(sp)
    ensures Fields(f, a + [sp] + b) == Fields(f, a) + Fields(f, b)
  {
    match f
    case DictionaryFielder(d) => Dictionary.FieldsAtSpace(d, a, sp, b);
    case MarkovFielder(m) => Markov.FieldsAtSpace(m, a, sp, b);
    case BoostFielder(c) => Runs.CutFieldsAtSpace(p => BoostStumps.Decisions(c, p), a, sp, b);
    case ForestFielder(forest) =>
    case RnnFielder(s) => Runs.CutFieldsAtSpace(p => Rnn.Decisions(s, p), a, sp, b);
  }

}
