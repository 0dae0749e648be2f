/** The random-forest model. Its training samples and their attributes are
    modelled; the forest itself is built by an external library, and both
    segmentation and deserialization are unfinished stubs in the program,
    which the model reproduces. */
module Forest {
  import opened Text
  import opened Runs
  import BoostStumps

  const MinAttr: int := -20
  const MaxAttr: int := 20

  /** One training sample: a joined document, the index of a byte in it and
      whether a word ends there. */
  datatype ForestSample = ForestSample(textDoc: Bytes, index: int, endOfField: bool)

  /** A trained forest, seen only through its vote on a sample. */
  datatype Forest = Forest(vote: ForestSample -> bool)

  datatype Result<T> = Success(value: T) | Failure(error: string)

  /** The training samples of one document, built like the boosted-stump
      ones: the joined fields, a boundary set marked with a running index,
      and one sample per joined byte. */
  function DocumentSamples(doc: Bytes): (r: seq<ForestSample>)
    ensures |r| == |RemoveSpaces(doc)|
  {
    var fields := SplitFields(doc);
    var joined := Concat(fields);
    var boundaries := Boundaries(fields, 0);
    ConcatSplitFields(doc);
    seq(|joined|, i => ForestSample(joined, i, i in boundaries))
  }

  /** The forest copy of the extractor agrees with the shared one. */
  lemma SamplesAgreeWithExtract(doc: Bytes)
    ensures |DocumentSamples(doc)| == |Extract(doc).bytes|
    ensures forall i :: 0 <= i < |DocumentSamples(doc)| ==>
              DocumentSamples(doc)[i] == ForestSample(Extract(doc).bytes, i, Extract(doc).flags[i])
  {
    var fields := SplitFields(doc);
    BoundariesMatchFlags(fields, 0);
    forall i | 0 <= i < |Concat(fields)|
      ensures (i in Boundaries(fields, 0)) == EndFlags(fields)[i]
    {
      assert 0 + i == i;
    }
  }

  /** An attribute value as the tree learner sees it. Outside the document
      `Attr` returns the untyped constant 0, which becomes an `int` inside
      the interface value; inside it returns a `byte`. The two never compare
      equal, so a NUL byte and "outside" are different values. */
  datatype Val = Outside | Inside(b: Byte)

  /** The value of attribute `a`: the byte `a` positions from the sample's
      byte, or the out-of-document value. Unlike the boosted-stump probe,
      both ends are guarded, so every attribute of every sample is
      defined. */
  function Attr(s: ForestSample, a: int): (v: Val)
    ensures 0 <= s.index + a < |s.textDoc| ==> v == Inside(s.textDoc[s.index + a])
    ensures !(0 <= s.index + a < |s.textDoc|) ==> v == Outside
  {
    var idx := a + s.index;
    if idx < 0 || idx >= |s.textDoc| then Outside else Inside(s.textDoc[idx])
  }

  /** Wherever the boosted-stump probe is defined, it reads the same byte
      as the forest attribute of the same offset inside the document, and 0
      where the forest attribute is the out-of-document value. */
  lemma AttrAgreesWithValueAt(s: BoostStumps.BoostSample, a: int)
    requires BoostStumps.ValueAtDefined(s, a)
    ensures Attr(ForestSample(s.document, s.idx, s.space), a).Inside? ==>
              Attr(ForestSample(s.document, s.idx, s.space), a) == Inside(BoostStumps.ValueAt(s, a))
    ensures Attr(ForestSample(s.document, s.idx, s.space), a).Outside? ==> BoostStumps.ValueAt(s, a) == 0
  {
  }

  /** The class of a sample is its word-end flag. */
  function Class(s: ForestSample): (c: bool)
    ensures c <==> s.endOfField
  {
    s.endOfField
  }

  /** The classes of a document's samples are its word-end flags. */
  lemma ClassesAreFlags(doc: Bytes)
    ensures |DocumentSamples(doc)| == |Extract(doc).flags|
    ensures forall i :: 0 <= i < |DocumentSamples(doc)| ==>
              (Class(DocumentSamples(doc)[i]) <==> Extract(doc).flags[i])
  {
    SamplesAgreeWithExtract(doc);
  }

  /** The attributes `lo, lo+1, ..., hi`. */
  function AttrRange(lo: int, hi: int): (r: seq<int>)
    ensures |r| == if lo <= hi then hi - lo + 1 else 0
    ensures forall i :: 0 <= i < |r| ==> r[i] == lo + i
    ensures forall a :: a in r <==> lo <= a <= hi
    decreases hi - lo
  {
    if lo > hi then [] else [lo] + AttrRange(lo + 1, hi)
  }

  /** Every offset from -20 to 20, each once, in increasing order. */
  function AllAttrs(): (r: seq<int>)
    ensures |r| == 41
    ensures forall i :: 0 <= i < |r| ==> r[i] == MinAttr + i
    ensures forall a :: a in r <==> MinAttr <= a <= MaxAttr
  {
    AttrRange(MinAttr, MaxAttr)
  }

  /** The forest's `Fields` is unfinished: it returns no words. */
  function Fields(f: Forest, text: Bytes): (ws: seq<Bytes>)
    ensures |ws| == 0
  {
    []
  }

  /** The stub keeps the whitespace-free bytes of a text exactly when there
      are none: it breaks the segmentation contract every other model keeps
      on any text with a non-space byte. */
  lemma FieldsStubLosesText(f: Forest, text: Bytes)
    ensures Concat(Fields(f, text)) == RemoveSpaces(text) <==> |SplitFields(text)| == 0
  {
    ConcatSplitFields(text);
    SplitFieldsAreFields(text);
    if |SplitFields(text)| > 0 {
      var fields := SplitFields(text);
      assert Concat(fields) == fields[0] + Concat(fields[1..]);
      assert |fields[0]| > 0;
    } else {
      assert Concat(SplitFields(text)) == [];
    }
  }

  /** Deserialization is unfinished: it fails on every input. */
  function Deserialize(data: Bytes): (r: Result<Forest>)
    ensures r.Failure?
    ensures r.error == "not yet implemented"
  {
    Failure("not yet implemented")
  }
}
