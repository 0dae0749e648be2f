/** Runs: a document with its whitespace removed, plus one flag per byte
    telling whether a word ended there. This is the labelled training data
    of every statistical model, and cutting a run after its flagged bytes is
    how the boosted-stump and recurrent models turn per-byte decisions back
    into words. */
module Runs {
  import opened Text

  /** The joined bytes of a document and, per byte, "last byte of a word". */
  datatype Run = Run(bytes: Bytes, flags: seq<bool>)

  /** The word-end flags of one word: true only at its last byte. */
  function WordFlags(w: Bytes): seq<bool> {
    seq(|w|, i => i == |w| - 1)
  }

  /** The word-end flags of a sequence of words laid end to end. */
  function EndFlags(ws: seq<Bytes>): seq<bool> {
    if |ws| == 0 then [] else WordFlags(ws[0]) + EndFlags(ws[1..])
  }

  function CountTrue(fs: seq<bool>): nat {
    if |fs| == 0 then 0 else (if fs[0] then 1 else 0) + CountTrue(fs[1..])
  }

  function Falses(n: nat): seq<bool> {
    seq(n, i => false)
  }

  /** The shared sample extractor: one byte and one flag per byte of the
      document's fields. */
  function Extract(doc: Bytes): (r: Run)
    ensures |r.bytes| == |r.flags|
    ensures r.bytes == RemoveSpaces(doc)
    ensures CountTrue(r.flags) == |SplitFields(doc)|
  {
    var fields := SplitFields(doc);
    SplitFieldsAreFields(doc);
    ConcatSplitFields(doc);
    EndFlagsLength(fields);
    CountEndFlags(fields);
    Run(Concat(fields), EndFlags(fields))
  }

  /** The cutting loop shared by the boosted-stump and recurrent `Fields`:
      append each byte to a buffer and emit the buffer after every byte whose
      decision is true; emit a non-empty trailing buffer at the end. */
  function CutFrom(bytes: Bytes, cuts: seq<bool>, buf: Bytes): (ws: seq<Bytes>)
    requires |cuts| == |bytes|
    ensures Concat(ws) == buf + bytes
    ensures forall i :: 0 <= i < |ws| ==> |ws[i]| > 0
    decreases |bytes|
  {
    if |bytes| == 0 then
      (if |buf| > 0 then [buf] else [])
    else
      var buf' := buf + [bytes[0]];
      if cuts[0] then
        var rest := CutFrom(bytes[1..], cuts[1..], []);
        assert buf + bytes == buf' + bytes[1..];
        [buf'] + rest
      else
        assert buf + bytes == buf' + bytes[1..];
        CutFrom(bytes[1..], cuts[1..], buf')
  }

  function Cut(bytes: Bytes, cuts: seq<bool>): (ws: seq<Bytes>)
    requires |cuts| == |bytes|
    ensures Concat(ws) == bytes
    ensures forall i :: 0 <= i < |ws| ==> |ws[i]| > 0
  {
    assert [] + bytes == bytes;
    CutFrom(bytes, cuts, [])
  }

  // ---------------------------------------------------------------------

  lemma {:induction false} EndFlagsLength(ws: seq<Bytes>)
    ensures |EndFlags(ws)| == |Concat(ws)|
    decreases |ws|
  {
    if |ws| > 0 {
      EndFlagsLength(ws[1..]);
    }
  }

  lemma {:induction false} CountTrueAppend(a: seq<bool>, b: seq<bool>)
    ensures CountTrue(a + b) == CountTrue(a) + CountTrue(b)
    decreases |a|
  {
    if |a| == 0 {
      assert a + b == b;
    } else {
      assert (a + b)[1..] == a[1..] + b;
      CountTrueAppend(a[1..], b);
    }
  }

  lemma {:induction false} CountFalses(n: nat)
    ensures CountTrue(Falses(n)) == 0
    decreases n
  {
    if n > 0 {
      assert Falses(n)[1..] == Falses(n - 1);
      CountFalses(n - 1);
    }
  }

  lemma WordFlagsSplit(w: Bytes)
    requires |w| > 0
    ensures WordFlags(w) == Falses(|w| - 1) + [true]
  {
  }

  /** One flag per word: the number of word ends is the number of words. */
  lemma {:induction false} CountEndFlags(ws: seq<Bytes>)
    requires forall i :: 0 <= i < |ws| ==> |ws[i]| > 0
    ensures CountTrue(EndFlags(ws)) == |ws|
    decreases |ws|
  {
    if |ws| > 0 {
      WordFlagsSplit(ws[0]);
      CountTrueAppend(Falses(|ws[0]| - 1), [true]);
      CountFalses(|ws[0]| - 1);
      CountTrueAppend(WordFlags(ws[0]), EndFlags(ws[1..]));
      CountEndFlags(ws[1..]);
    }
  }

  lemma {:induction false} CutWord(w: Bytes, k: nat, b: Bytes, f: seq<bool>)
    requires k < |w|
    requires |b| == |f|
    ensures |WordFlags(w)[k..] + f| == |w[k..] + b|
    ensures CutFrom(w[k..] + b, WordFlags(w)[k..] + f, w[..k]) == [w] + CutFrom(b, f, [])
    decreases |w| - k
  {
    var bytes := w[k..] + b;
    var cuts := WordFlags(w)[k..] + f;
    assert bytes[0] == w[k] && cuts[0] == (k == |w| - 1);
    assert w[..k] + [bytes[0]] == w[..k + 1];
    if k == |w| - 1 {
      assert bytes[1..] == b && cuts[1..] == f;
      assert w[..k + 1] == w;
    } else {
      assert bytes[1..] == w[k + 1..] + b;
      assert cuts[1..] == WordFlags(w)[k + 1..] + f;
      CutWord(w, k + 1, b, f);
    }
  }

  /** Cutting the joined words at their word ends gives the words back: a
      perfect per-byte classifier reproduces the original segmentation. */
  lemma {:induction false} CutEndFlags(ws: seq<Bytes>)
    requires forall i :: 0 <= i < |ws| ==> |ws[i]| > 0
    ensures |EndFlags(ws)| == |Concat(ws)|
    ensures Cut(Concat(ws), EndFlags(ws)) == ws
    decreases |ws|
  {
    EndFlagsLength(ws);
    if |ws| > 0 {
      var w := ws[0];
      CutEndFlags(ws[1..]);
      EndFlagsLength(ws[1..]);
      assert w[0..] == w && WordFlags(w)[0..] == WordFlags(w) && w[..0] == [];
      CutWord(w, 0, Concat(ws[1..]), EndFlags(ws[1..]));
      assert ws == [w] + ws[1..];
    }
  }

  /** Where `Cut` cuts: it emits a word end after every byte whose decision
      is true and after the last byte, and nowhere else; the bytes already
      buffered carry no end. Together with `CutFrom`'s concatenation
      guarantee this pins the output down. */
  lemma {:induction false} EndFlagsOfCutFrom(bytes: Bytes, cuts: seq<bool>, buf: Bytes)
    requires |cuts| == |bytes| > 0
    ensures EndFlags(CutFrom(bytes, cuts, buf)) == Falses(|buf|) + cuts[..|bytes| - 1] + [true]
    decreases |bytes|
  {
    var buf' := buf + [bytes[0]];
    WordFlagsSplit(buf');
    if |bytes| == 1 {
      var ws := CutFrom(bytes, cuts, buf);
      CutFromNothing(bytes[1..], cuts[1..], []);
      CutFromNothing(bytes[1..], cuts[1..], buf');
      assert ws == [buf'];
      assert EndFlags(ws) == WordFlags(buf') + EndFlags(ws[1..]);
      assert cuts[..0] == [];
    } else if cuts[0] {
      var rest := CutFrom(bytes[1..], cuts[1..], []);
      EndFlagsOfCutFrom(bytes[1..], cuts[1..], []);
      var ws := [buf'] + rest;
      assert ws[1..] == rest;
      assert Falses(0) == [];
      assert cuts[..|bytes| - 1] == [true] + cuts[1..][..|bytes| - 2];
    } else {
      EndFlagsOfCutFrom(bytes[1..], cuts[1..], buf');
      assert Falses(|buf'|) == Falses(|buf|) + [false];
      assert cuts[..|bytes| - 1] == [false] + cuts[1..][..|bytes| - 2];
    }
  }

  lemma CutFromNothing(bytes: Bytes, cuts: seq<bool>, buf: Bytes)
    requires |cuts| == |bytes| == 0
    ensures CutFrom(bytes, cuts, buf) == if |buf| > 0 then [buf] else []
  {
  }

  lemma EndFlagsOfCut(bytes: Bytes, cuts: seq<bool>)
    requires |cuts| == |bytes| > 0
    ensures EndFlags(Cut(bytes, cuts)) == cuts[..|bytes| - 1] + [true]
  {
    EndFlagsOfCutFrom(bytes, cuts, []);
    assert Falses(0) == [];
  }

  /** Cutting an extracted run at its own flags recovers the document's
      fields. */
  lemma CutExtract(doc: Bytes)
    ensures Cut(Extract(doc).bytes, Extract(doc).flags) == SplitFields(doc)
  {
    var fields := SplitFields(doc);
    SplitFieldsAreFields(doc);
    CutEndFlags(fields);
  }

  // ---------------------------------------------------------------------
  // The set-of-boundaries form of the extractor

  /** The `boundaries` map built by the boosted-stump and forest trainers:
      walking the fields with a running byte index starting at `start`, the
      index of each field's last byte is marked. */
  function Boundaries(fields: seq<Bytes>, start: int): set<int>
    decreases |fields|
  {
    if |fields| == 0 then {}
    else
      var f := fields[0];
      (if |f| > 0 then {start + |f| - 1} else {}) + Boundaries(fields[1..], start + |f|)
  }

  /** The marked indices are exactly the positions whose word-end flag is
      set, so the map-based extractor agrees with `Extract`. */
  lemma {:induction false} BoundariesMatchFlags(fields: seq<Bytes>, start: int)
    ensures |EndFlags(fields)| == |Concat(fields)|
    ensures forall j :: j in Boundaries(fields, start) ==> start <= j < start + |Concat(fields)|
    ensures forall i :: 0 <= i < |Concat(fields)| ==>
              (start + i in Boundaries(fields, start) <==> EndFlags(fields)[i])
    decreases |fields|
  {
    EndFlagsLength(fields);
    if |fields| > 0 {
      var f := fields[0];
      var rest := fields[1..];
      BoundariesMatchFlags(rest, start + |f|);
      assert Concat(fields) == f + Concat(rest);
      assert EndFlags(fields) == WordFlags(f) + EndFlags(rest);
      forall i | 0 <= i < |Concat(fields)|
        ensures start + i in Boundaries(fields, start) <==> EndFlags(fields)[i]
      {
        if i >= |f| {
          assert start + i == (start + |f|) + (i - |f|);
          assert EndFlags(fields)[i] == EndFlags(rest)[i - |f|];
        }
      }
    }
  }

  lemma {:induction false} EndFlagsAppend(a: seq<Bytes>, b: seq<Bytes>)
    ensures EndFlags(a + b) == EndFlags(a) + EndFlags(b)
    decreases |a|
  {
    if |a| == 0 {
      assert a + b == b;
    } else {
      assert (a + b)[1..] == a[1..] + b;
      EndFlagsAppend(a[1..], b);
    }
  }

  // ---------------------------------------------------------------------
  // Segmenting a text by per-byte decisions

  /** Cut one part after the bytes `decide` selects. */
  function CutPart(decide: Bytes -> seq<bool>, part: Bytes): (ws: seq<Bytes>)
    requires |decide(part)| == |part|
    ensures Concat(ws) == part
    ensures forall i :: 0 <= i < |ws| ==> |ws[i]| > 0
  {
    Cut(part, decide(part))
  }

  /** The `Fields` of the per-byte models: split the text at whitespace and
      cut every part after the bytes the model decides end a word. */
  function CutFields(decide: Bytes -> seq<bool>, text: Bytes): (ws: seq<Bytes>)
    requires forall p :: |decide(p)| == |p|
    ensures Concat(ws) == RemoveSpaces(text)
    ensures AllFields(ws)
  {
    var parts := SplitFields(text);
    var f := p => CutPart(decide, p);
    SplitFieldsAreFields(text);
    ConcatSplitFields(text);
    assert Segments(f, parts) by {
      forall k | 0 <= k < |parts| ensures Concat(f(parts[k])) == parts[k] {
        assert [] + parts[k] == parts[k];
      }
    }
    FlatMapSegments(parts, f);
    FlatMap(parts, f)
  }

  /** A part is cut exactly after the selected bytes and after its last
      byte. */
  lemma CutPartEnds(decide: Bytes -> seq<bool>, part: Bytes)
    requires |decide(part)| == |part| > 0
    ensures EndFlags(CutPart(decide, part)) == decide(part)[..|part| - 1] + [true]
  {
    EndFlagsOfCut(part, decide(part));
  }

  /** Decisions that select exactly the word ends of `ws` split their
      concatenation back into `ws`. */
  lemma CutPartPerfect(decide: Bytes -> seq<bool>, ws: seq<Bytes>)
    requires forall i :: 0 <= i < |ws| ==> |ws[i]| > 0
    requires decide(Concat(ws)) == EndFlags(ws)
    ensures |decide(Concat(ws))| == |Concat(ws)|
    ensures CutPart(decide, Concat(ws)) == ws
  {
    CutEndFlags(ws);
  }

  /** The per-byte models never join bytes across whitespace. */
  lemma CutFieldsAtSpace(decide: Bytes -> seq<bool>, a: Bytes, sp: Byte, b: Bytes)
    requires forall p :: |decide(p)| == |p|
    requires IsSpace(sp)
    ensures CutFields(decide, a + [sp] + b) == CutFields(decide, a) + CutFields(decide, b)
  {
    FlatMapAtSpace(a, sp, b, p => CutPart(decide, p));
  }
}
