/** Go's string ordering: byte-wise lexicographic comparison, the order
    `sort.Strings` sorts by and `sort.SearchStrings` searches by. */
module Lexicographic {
  import opened Text

  /** `a < b` on Go strings. */
  predicate Less(a: Bytes, b: Bytes)
    decreases |a|
  {
    if |a| == 0 then |b| > 0
    else if |b| == 0 then false
    else if a[0] != b[0] then a[0] < b[0]
    else Less(a[1..], b[1..])
  }

  /** Non-decreasing order, the promise of `sort.Strings`. */
  predicate Sorted(ws: seq<Bytes>) {
    forall i, j :: 0 <= i < j < |ws| ==> !Less(ws[j], ws[i])
  }

  /** Strictly increasing order: sorted and free of duplicates. */
  predicate StrictlySorted(ws: seq<Bytes>) {
    forall i, j :: 0 <= i < j < |ws| ==> Less(ws[i], ws[j])
  }

  lemma {:induction false} LessIrreflexive(a: Bytes)
    ensures !Less(a, a)
    decreases |a|
  {
    if |a| > 0 {
      LessIrreflexive(a[1..]);
    }
  }

  lemma {:induction false} LessAsymmetric(a: Bytes, b: Bytes)
    ensures !(Less(a, b) && Less(b, a))
    decreases |a|
  {
    if |a| > 0 && |b| > 0 && a[0] == b[0] {
      LessAsymmetric(a[1..], b[1..]);
    }
  }

  /** Any two strings are ordered one way or the other, or equal. */
  lemma {:induction false} LessTrichotomy(a: Bytes, b: Bytes)
    ensures Less(a, b) || a == b || Less(b, a)
    decreases |a|
  {
    if |a| > 0 && |b| > 0 && a[0] == b[0] {
      LessTrichotomy(a[1..], b[1..]);
      if a[1..] == b[1..] {
        assert a == [a[0]] + a[1..];
        assert b == [b[0]] + b[1..];
      }
    }
  }

  lemma {:induction false} LessTransitive(a: Bytes, b: Bytes, c: Bytes)
    requires Less(a, b) && Less(b, c)
    ensures Less(a, c)
    decreases |a|
  {
    if |a| > 0 && a[0] == b[0] && b[0] == c[0] {
      LessTransitive(a[1..], b[1..], c[1..]);
    }
  }

  /** `a <= b < c` gives `a < c`. */
  lemma LessEqLess(a: Bytes, b: Bytes, c: Bytes)
    requires !Less(b, a) && Less(b, c)
    ensures Less(a, c)
  {
    LessTrichotomy(a, b);
    if a != b {
      LessTransitive(a, b, c);
    }
  }

  lemma StrictlySortedIsSorted(ws: seq<Bytes>)
    requires StrictlySorted(ws)
    ensures Sorted(ws)
  {
    forall i, j | 0 <= i < j < |ws| ensures !Less(ws[j], ws[i]) {
      LessAsymmetric(ws[i], ws[j]);
    }
  }

  /** The strictly sorted list of a set of strings is unique. */
  lemma {:induction false} StrictlySortedUnique(a: seq<Bytes>, b: seq<Bytes>)
    requires StrictlySorted(a) && StrictlySorted(b)
    requires forall w :: w in a <==> w in b
    ensures a == b
    decreases |a|
  {
    if |a| == 0 {
      assert forall s: seq<Bytes> :: |s| > 0 ==> s[0] in s;
    } else {
      assert a[0] in b;
      assert |b| > 0;
      assert b[0] in a;
      if a[0] != b[0] {
        var i :| 0 <= i < |a| && a[i] == b[0];
        var j :| 0 <= j < |b| && b[j] == a[0];
        assert i > 0 && j > 0;
        assert Less(a[0], b[0]);
        assert Less(b[0], a[0]);
        LessAsymmetric(a[0], b[0]);
      }
      forall w ensures w in a[1..] <==> w in b[1..] {
        if w in a[1..] {
          var i :| 1 <= i < |a| && a[i] == w;
          assert Less(a[0], w);
          LessIrreflexive(w);
          assert w in b;
          assert w != b[0];
        }
        if w in b[1..] {
          var j :| 1 <= j < |b| && b[j] == w;
          assert Less(b[0], w);
          LessIrreflexive(w);
          assert w in a;
          assert w != a[0];
        }
      }
      StrictlySortedUnique(a[1..], b[1..]);
      assert a == [a[0]] + a[1..];
      assert b == [b[0]] + b[1..];
    }
  }
}
