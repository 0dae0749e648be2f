/** Byte strings and the whitespace split that every model applies to its
    input before segmenting it (Go's `strings.Fields`, restricted to the
    single-byte ASCII whitespace set). */
module Text {

  /** `maxWordLen`: the longest candidate word the dictionary and Markov
      models try, 20 bytes. */
  const MaxWordLen: nat := 20

  /** One byte of text. */
  type Byte = b: int | 0 <= b < 256

  /** A Go `string` or `[]byte`: a sequence of bytes. */
  type Bytes = seq<Byte>

  /** The byte-level whitespace set of `strings.Fields`: tab, newline,
      vertical tab, form feed, carriage return and space. */
  predicate IsSpace(b: Byte) {
    b == 9 || b == 10 || b == 11 || b == 12 || b == 13 || b == 32
  }

  predicate NoSpace(w: Bytes) {
    forall i :: 0 <= i < |w| ==> !IsSpace(w[i])
  }

  /** A field as `strings.Fields` produces it: non-empty and whitespace-free. */
  predicate IsField(w: Bytes) {
    |w| > 0 && NoSpace(w)
  }

  predicate AllFields(ws: seq<Bytes>) {
    forall i :: 0 <= i < |ws| ==> IsField(ws[i])
  }

  /** Length of the longest whitespace-free prefix of `s`. */
  function WordLen(s: Bytes): (n: nat)
    ensures n <= |s|
    ensures NoSpace(s[..n])
    ensures n < |s| ==> IsSpace(s[n])
  {
    if |s| == 0 || IsSpace(s[0]) then 0 else 1 + WordLen(s[1..])
  }

  /** `strings.Fields`: the maximal whitespace-free runs of `s`, in order. */
  function SplitFields(s: Bytes): seq<Bytes>
    decreases |s|
  {
    if |s| == 0 then []
    else if IsSpace(s[0]) then SplitFields(s[1..])
    else
      var n := WordLen(s);
      [s[..n]] + SplitFields(s[n..])
  }

  /** Concatenation of a sequence of byte strings (`strings.Join(ws, "")`). */
  function Concat(ws: seq<Bytes>): Bytes {
    if |ws| == 0 then [] else ws[0] + Concat(ws[1..])
  }

  /** `s` with every whitespace byte deleted: an independent description of
      what the joined fields of `s` must be. */
  function RemoveSpaces(s: Bytes): Bytes {
    if |s| == 0 then []
    else (if IsSpace(s[0]) then [] else [s[0]]) + RemoveSpaces(s[1..])
  }

  /** `strings.Join(ws, string(sep))`. */
  function Join(ws: seq<Bytes>, sep: Byte): Bytes {
    if |ws| == 0 then []
    else if |ws| == 1 then ws[0]
    else ws[0] + [sep] + Join(ws[1..], sep)
  }

  /** Apply a per-part segmenter to every part and gather the words in order. */
  function FlatMap(parts: seq<Bytes>, f: Bytes -> seq<Bytes>): seq<Bytes> {
    if |parts| == 0 then [] else f(parts[0]) + FlatMap(parts[1..], f)
  }

  // ---------------------------------------------------------------------
  // SplitFields

  /** Every part of `strings.Fields` is non-empty and holds no whitespace. */
  lemma {:induction false} SplitFieldsAreFields(s: Bytes)
    ensures AllFields(SplitFields(s))
    decreases |s|
  {
    if |s| == 0 {
    } else if IsSpace(s[0]) {
      SplitFieldsAreFields(s[1..]);
    } else {
      var n := WordLen(s);
      SplitFieldsAreFields(s[n..]);
      var r := SplitFields(s);
      assert r == [s[..n]] + SplitFields(s[n..]);
      forall i | 0 <= i < |r| ensures IsField(r[i]) {
        if i > 0 {
          assert r[i] == SplitFields(s[n..])[i - 1];
        }
      }
    }
  }

  lemma {:induction false} RemoveSpacesAppend(a: Bytes, b: Bytes)
    ensures RemoveSpaces(a + b) == RemoveSpaces(a) + RemoveSpaces(b)
    decreases |a|
  {
    if |a| == 0 {
      assert a + b == b;
    } else {
      assert (a + b)[1..] == a[1..] + b;
      RemoveSpacesAppend(a[1..], b);
    }
  }

  lemma {:induction false} RemoveSpacesOfWord(w: Bytes)
    requires NoSpace(w)
    ensures RemoveSpaces(w) == w
    decreases |w|
  {
    if |w| > 0 {
      RemoveSpacesOfWord(w[1..]);
      assert w == [w[0]] + w[1..];
    }
  }

  /** Joining the fields of `s` gives `s` with its whitespace deleted. */
  lemma {:induction false} ConcatSplitFields(s: Bytes)
    ensures Concat(SplitFields(s)) == RemoveSpaces(s)
    decreases |s|
  {
    if |s| == 0 {
    } else if IsSpace(s[0]) {
      ConcatSplitFields(s[1..]);
    } else {
      var n := WordLen(s);
      ConcatSplitFields(s[n..]);
      assert s == s[..n] + s[n..];
      RemoveSpacesAppend(s[..n], s[n..]);
      RemoveSpacesOfWord(s[..n]);
      var r := SplitFields(s);
      assert r[1..] == SplitFields(s[n..]);
    }
  }

  lemma {:induction false} WordLenAppend(a: Bytes, c: Bytes)
    requires WordLen(a) < |a| || (|c| > 0 && IsSpace(c[0]))
    ensures WordLen(a + c) == WordLen(a)
    decreases |a|
  {
    if |a| == 0 {
      assert a + c == c;
    } else if !IsSpace(a[0]) {
      assert (a + c)[1..] == a[1..] + c;
      WordLenAppend(a[1..], c);
    }
  }

  /** A whitespace byte separates the fields on its left from those on its
      right: no field spans it. */
  lemma {:induction false} SplitFieldsAtSpace(a: Bytes, sp: Byte, b: Bytes)
    requires IsSpace(sp)
    ensures SplitFields(a + [sp] + b) == SplitFields(a) + SplitFields(b)
    decreases |a|
  {
    var s := a + [sp] + b;
    if |a| == 0 {
      assert s == [sp] + b;
      assert s[1..] == b;
    } else if IsSpace(a[0]) {
      assert s[1..] == a[1..] + [sp] + b;
      SplitFieldsAtSpace(a[1..], sp, b);
    } else {
      var n := WordLen(a);
      assert s == a + ([sp] + b);
      WordLenAppend(a, [sp] + b);
      assert s[0] == a[0];
      assert s[..n] == a[..n];
      assert s[n..] == a[n..] + [sp] + b;
      SplitFieldsAtSpace(a[n..], sp, b);
      calc {
        SplitFields(s);
        [a[..n]] + SplitFields(s[n..]);
        [a[..n]] + (SplitFields(a[n..]) + SplitFields(b));
        ([a[..n]] + SplitFields(a[n..])) + SplitFields(b);
      }
    }
  }

  lemma {:induction false} WordLenOfNoSpace(w: Bytes)
    requires NoSpace(w)
    ensures WordLen(w) == |w|
    decreases |w|
  {
    if |w| > 0 {
      WordLenOfNoSpace(w[1..]);
    }
  }

  lemma SplitFieldsOfField(w: Bytes)
    requires IsField(w)
    ensures SplitFields(w) == [w]
  {
    WordLenOfNoSpace(w);
    assert !IsSpace(w[0]);
    assert w[..|w|] == w;
    assert w[|w|..] == [];
    assert SplitFields(w) == [w[..|w|]] + SplitFields(w[|w|..]);
  }

  /** Joining fields with a whitespace separator and splitting again gives
      the fields back; this is the dictionary's serialisation round trip. */
  lemma {:induction false} SplitJoin(ws: seq<Bytes>, sep: Byte)
    requires IsSpace(sep)
    requires AllFields(ws)
    ensures SplitFields(Join(ws, sep)) == ws
    decreases |ws|
  {
    if |ws| == 0 {
    } else if |ws| == 1 {
      SplitFieldsOfField(ws[0]);
    } else {
      assert IsField(ws[0]);
      assert AllFields(ws[1..]) by {
        forall i | 0 <= i < |ws[1..]| ensures IsField(ws[1..][i]) {
          assert ws[1..][i] == ws[i + 1];
        }
      }
      SplitJoin(ws[1..], sep);
      SplitFieldsAtSpace(ws[0], sep, Join(ws[1..], sep));
      SplitFieldsOfField(ws[0]);
      assert ws == [ws[0]] + ws[1..];
    }
  }

  /** `strings.Join` puts one separator between neighbours. */
  lemma {:induction false} JoinLength(ws: seq<Bytes>, sep: Byte)
    ensures |ws| > 0 ==> |Join(ws, sep)| == |Concat(ws)| + |ws| - 1
    decreases |ws|
  {
    if |ws| > 1 {
      JoinLength(ws[1..], sep);
      assert Join(ws, sep) == ws[0] + [sep] + Join(ws[1..], sep);
      assert Concat(ws) == ws[0] + Concat(ws[1..]);
    }
  }

  /** Joining whitespace-free words with a whitespace separator and then
      deleting the whitespace lays the words end to end. */
  lemma {:induction false} RemoveSpacesJoin(ws: seq<Bytes>, sep: Byte)
    requires IsSpace(sep)
    ensures AllFields(ws) ==> RemoveSpaces(Join(ws, sep)) == Concat(ws)
    decreases |ws|
  {
    if !AllFields(ws) {
    } else if |ws| == 1 {
      assert IsField(ws[0]);
      RemoveSpacesOfWord(ws[0]);
      assert Concat(ws) == ws[0] + Concat([]);
    } else if |ws| > 1 {
      var rest := ws[1..];
      assert AllFields(rest) by {
        forall i | 0 <= i < |rest| ensures IsField(rest[i]) {
          assert rest[i] == ws[i + 1];
        }
      }
      RemoveSpacesJoin(rest, sep);
      assert IsField(ws[0]);
      RemoveSpacesOfWord(ws[0]);
      var j := Join(rest, sep);
      assert Join(ws, sep) == ws[0] + ([sep] + j);
      assert RemoveSpaces([sep] + j) == RemoveSpaces(j);
      RemoveSpacesAppend(ws[0], [sep] + j);
      assert Concat(ws) == ws[0] + Concat(rest);
    }
  }

  /** Joining whitespace-free words adds no whitespace but the separator. */
  lemma {:induction false} JoinSpaces(ws: seq<Bytes>, sep: Byte)
    ensures AllFields(ws) ==> forall b :: b in Join(ws, sep) && IsSpace(b) ==> b == sep
    decreases |ws|
  {
    if AllFields(ws) && |ws| > 0 {
      assert IsField(ws[0]);
      if |ws| > 1 {
        assert AllFields(ws[1..]) by {
          forall i | 0 <= i < |ws[1..]| ensures IsField(ws[1..][i]) {
            assert ws[1..][i] == ws[i + 1];
          }
        }
        JoinSpaces(ws[1..], sep);
        var j := Join(ws[1..], sep);
        assert Join(ws, sep) == ws[0] + [sep] + j;
      }
    }
  }

  // ---------------------------------------------------------------------
  // Concat and FlatMap

  lemma {:induction false} ConcatAppend(a: seq<Bytes>, b: seq<Bytes>)
    ensures Concat(a + b) == Concat(a) + Concat(b)
    decreases |a|
  {
    if |a| == 0 {
      assert a + b == b;
    } else {
      assert (a + b)[1..] == a[1..] + b;
      ConcatAppend(a[1..], b);
    }
  }

  lemma {:induction false} FlatMapAppend(a: seq<Bytes>, b: seq<Bytes>, f: Bytes -> seq<Bytes>)
    ensures FlatMap(a + b, f) == FlatMap(a, f) + FlatMap(b, f)
    decreases |a|
  {
    if |a| == 0 {
      assert a + b == b;
    } else {
      assert (a + b)[1..] == a[1..] + b;
      FlatMapAppend(a[1..], b, f);
    }
  }

  /** A word of a concatenation is a slice of it, so it inherits the
      absence of whitespace. */
  lemma {:induction false} ConcatNoSpace(ws: seq<Bytes>)
    requires NoSpace(Concat(ws))
    ensures forall i :: 0 <= i < |ws| ==> NoSpace(ws[i])
    decreases |ws|
  {
    if |ws| > 0 {
      var c := Concat(ws);
      assert c == ws[0] + Concat(ws[1..]);
      assert forall j :: 0 <= j < |ws[0]| ==> ws[0][j] == c[j];
      assert forall j :: 0 <= j < |Concat(ws[1..])| ==> Concat(ws[1..])[j] == c[|ws[0]| + j];
      ConcatNoSpace(ws[1..]);
      forall i | 0 <= i < |ws| ensures NoSpace(ws[i]) {
        if i > 0 {
          assert ws[i] == ws[1..][i - 1];
        }
      }
    }
  }

  /** What each model promises of its per-part segmenter: the words of a
      part are non-empty and join back to that part. */
  ghost predicate Segments(f: Bytes -> seq<Bytes>, parts: seq<Bytes>) {
    forall k :: 0 <= k < |parts| ==>
      Concat(f(parts[k])) == parts[k] &&
      forall i :: 0 <= i < |f(parts[k])| ==> |f(parts[k])[i]| > 0
  }

  /** A segmenter that keeps every part intact, applied to the fields of a
      text, yields non-empty whitespace-free words whose concatenation is
      the text without its whitespace. */
  lemma {:induction false} FlatMapSegments(parts: seq<Bytes>, f: Bytes -> seq<Bytes>)
    requires AllFields(parts)
    requires Segments(f, parts)
    ensures Concat(FlatMap(parts, f)) == Concat(parts)
    ensures AllFields(FlatMap(parts, f))
    decreases |parts|
  {
    if |parts| > 0 {
      var ws := f(parts[0]);
      var rest := parts[1..];
      assert AllFields(rest) by {
        forall k | 0 <= k < |rest| ensures IsField(rest[k]) {
          assert rest[k] == parts[k + 1];
        }
      }
      assert Segments(f, rest) by {
        forall k | 0 <= k < |rest| ensures Concat(f(rest[k])) == rest[k] {
          assert rest[k] == parts[k + 1];
        }
        forall k, i | 0 <= k < |rest| && 0 <= i < |f(rest[k])| ensures |f(rest[k])[i]| > 0 {
          assert rest[k] == parts[k + 1];
        }
      }
      FlatMapSegments(rest, f);
      ConcatAppend(ws, FlatMap(rest, f));
      assert IsField(parts[0]);
      assert Concat(ws) == parts[0];
      ConcatNoSpace(ws);
      var r := FlatMap(parts, f);
      assert r == ws + FlatMap(rest, f);
      forall i | 0 <= i < |r| ensures IsField(r[i]) {
        if i >= |ws| {
          assert r[i] == FlatMap(rest, f)[i - |ws|];
        } else {
          assert r[i] == ws[i];
        }
      }
    }
  }

  /** Fields of a text split at a whitespace byte are the fields of the two
      sides: a text-level segmenter never joins bytes across whitespace. */
  lemma FlatMapAtSpace(a: Bytes, sp: Byte, b: Bytes, f: Bytes -> seq<Bytes>)
    requires IsSpace(sp)
    ensures FlatMap(SplitFields(a + [sp] + b), f)
         == FlatMap(SplitFields(a), f) + FlatMap(SplitFields(b), f)
  {
    SplitFieldsAtSpace(a, sp, b);
    FlatMapAppend(SplitFields(a), SplitFields(b), f);
  }
}
