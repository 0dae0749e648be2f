/** Frequency maps keyed by byte strings, Go style: a missing key reads as
    zero and `m[k]++` inserts it. `Total` sums all entries. */
module Counts {
  import opened Text

  type Counter = map<Bytes, int>

  /** `m[k]` in Go: zero for a missing key. */
  function Count(m: Counter, k: Bytes): int {
    if k in m then m[k] else 0
  }

  /** `m[k]++` in Go. */
  function Increment(m: Counter, k: Bytes): (r: Counter)
    ensures Count(r, k) == Count(m, k) + 1
    ensures forall j :: j != k ==> Count(r, j) == Count(m, j)
    ensures r.Keys == m.Keys + {k}
  {
    m[k := Count(m, k) + 1]
  }

  /** The sum of `f` over a finite set of keys. */
  ghost function SetSum(s: set<Bytes>, f: Bytes -> int): int
    decreases s
  {
    if s == {} then 0
    else
      var k :| k in s;
      f(k) + SetSum(s - {k}, f)
  }

  /** The sum of every entry of a counter. */
  ghost function Total(m: Counter): int {
    SetSum(m.Keys, k => Count(m, k))
  }

  /** Any element can be taken out of a sum first. */
  lemma {:induction false} SetSumRemove(s: set<Bytes>, f: Bytes -> int, k: Bytes)
    requires k in s
    ensures SetSum(s, f) == f(k) + SetSum(s - {k}, f)
    decreases s
  {
    var j :| j in s && SetSum(s, f) == f(j) + SetSum(s - {j}, f);
    if j != k {
      SetSumRemove(s - {j}, f, k);
      SetSumRemove(s - {k}, f, j);
      assert s - {j} - {k} == s - {k} - {j};
    }
  }

  lemma {:induction false} SetSumCongruent(s: set<Bytes>, f: Bytes -> int, g: Bytes -> int)
    requires forall k :: k in s ==> f(k) == g(k)
    ensures SetSum(s, f) == SetSum(s, g)
    decreases s
  {
    if s != {} {
      var k :| k in s && SetSum(s, f) == f(k) + SetSum(s - {k}, f);
      SetSumRemove(s, g, k);
      SetSumCongruent(s - {k}, f, g);
    }
  }

  /** `m[k]++` adds exactly one to the total. */
  lemma IncrementTotal(m: Counter, k: Bytes)
    ensures Total(Increment(m, k)) == Total(m) + 1
  {
    var r := Increment(m, k);
    var f := j => Count(m, j);
    var g := j => Count(r, j);
    SetSumRemove(r.Keys, g, k);
    SetSumCongruent(r.Keys - {k}, g, f);
    if k in m {
      SetSumRemove(m.Keys, f, k);
      assert r.Keys - {k} == m.Keys - {k};
    } else {
      assert r.Keys - {k} == m.Keys;
    }
  }

  /** Nested counters: `table[p][w]`, with Go's nil-map reads as zero. */
  type Table = map<Bytes, Counter>

  function Row(t: Table, p: Bytes): Counter {
    if p in t then t[p] else map[]
  }

  /** `t[p][w]++`, creating the row `t[p]` when it is missing. */
  function Increment2(t: Table, p: Bytes, w: Bytes): (r: Table)
    ensures Count(Row(r, p), w) == Count(Row(t, p), w) + 1
    ensures forall q, v :: (q, v) != (p, w) ==> Count(Row(r, q), v) == Count(Row(t, q), v)
  {
    t[p := Increment(Row(t, p), w)]
  }

  /** The sum of every entry of every row. */
  ghost function TableTotal(t: Table): int {
    SetSum(t.Keys, p => Total(Row(t, p)))
  }

  lemma EmptyTotal()
    ensures Total(map[]) == 0
  {
  }

  /** `t[p][w]++` adds exactly one to the table's total. */
  lemma Increment2Total(t: Table, p: Bytes, w: Bytes)
    ensures TableTotal(Increment2(t, p, w)) == TableTotal(t) + 1
  {
    var r := Increment2(t, p, w);
    var f := q => Total(Row(t, q));
    var g := q => Total(Row(r, q));
    IncrementTotal(Row(t, p), w);
    SetSumRemove(r.Keys, g, p);
    SetSumCongruent(r.Keys - {p}, g, f);
    if p in t {
      SetSumRemove(t.Keys, f, p);
      assert r.Keys - {p} == t.Keys - {p};
    } else {
      assert r.Keys - {p} == t.Keys;
      EmptyTotal();
    }
  }
}
