/**
  The frequency table both analyzers build, and the list facts it rests on.
  A Python dict remembers the order in which its keys were first inserted,
  and that order decides how tied words are listed in the report, so a table
  here is its key order together with its word-to-count map.
 */
module Frequencies {

  /** A `(word, count)` pair as `dict.items()` and `most_common` yield it. */
  type Entry = (string, nat)

  predicate Distinct<T(==)>(s: seq<T>) {
    forall i, j | 0 <= i < j < |s| :: s[i] != s[j]
  }

  /** A word-to-count dict: its keys in insertion order, and its counts. */
  datatype FreqTable = FreqTable(order: seq<string>, counts: map<string, nat>)

  /** What every Python dict satisfies: each key once, and the order lists
      exactly the keys of the map. */
  predicate Valid(t: FreqTable) {
    && Distinct(t.order)
    && (forall w | w in t.counts :: w in t.order)
    && (forall w | w in t.order :: w in t.counts)
  }

  /** `t.items()`: the entries in key insertion order. */
  function Items(t: FreqTable): (r: seq<Entry>)
    requires Valid(t)
    ensures |r| == |t.order|
    ensures forall i | 0 <= i < |r| :: r[i].0 == t.order[i] && r[i].1 == t.counts[r[i].0]
    ensures forall i, j | 0 <= i < j < |r| :: r[i].0 != r[j].0
  {
    seq(|t.order|, i requires 0 <= i < |t.order| => (t.order[i], t.counts[t.order[i]]))
  }

  /** An entry is an item of the table exactly when it pairs a key with its count. */
  lemma InItems(t: FreqTable, e: Entry)
    requires Valid(t)
    ensures e in Items(t) <==> e.0 in t.counts && t.counts[e.0] == e.1
  {
    if e.0 in t.counts && t.counts[e.0] == e.1 {
      var i :| 0 <= i < |t.order| && t.order[i] == e.0;
      assert Items(t)[i] == e;
    }
  }

  /** `sum(t.values())`, taken over a list of entries. */
  function SumCounts(es: seq<Entry>): nat {
    if es == [] then 0 else es[0].1 + SumCounts(es[1..])
  }

  lemma {:induction false} SumCountsAppend(a: seq<Entry>, b: seq<Entry>)
    ensures SumCounts(a + b) == SumCounts(a) + SumCounts(b)
  {
    if a == [] {
      assert a + b == b;
    } else {
      assert (a + b)[0] == a[0] && (a + b)[1..] == a[1..] + b;
      SumCountsAppend(a[1..], b);
    }
  }

  /** Raising one entry's count by one raises the sum by one. */
  lemma {:induction false} SumCountsBump(a: seq<Entry>, b: seq<Entry>, p: nat)
    requires |a| == |b| && p < |a|
    requires forall k | 0 <= k < |a| && k != p :: a[k] == b[k]
    requires b[p].1 == a[p].1 + 1
    ensures SumCounts(b) == SumCounts(a) + 1
  {
    if p == 0 {
      assert a[1..] == b[1..];
    } else {
      SumCountsBump(a[1..], b[1..], p - 1);
    }
  }

  /** One increment-or-insert step adds exactly one to the sum of the counts. */
  lemma SumAfterStep(before: FreqTable, after: FreqTable, w: string)
    requires Valid(before) && Valid(after)
    requires w in before.counts ==>
      after.order == before.order && after.counts == before.counts[w := before.counts[w] + 1]
    requires w !in before.counts ==>
      after.order == before.order + [w] && after.counts == before.counts[w := 1]
    ensures SumCounts(Items(after)) == SumCounts(Items(before)) + 1
  {
    if w in before.counts {
      var p :| 0 <= p < |before.order| && before.order[p] == w;
      forall k | 0 <= k < |before.order| && k != p ensures Items(before)[k] == Items(after)[k] {
        assert before.order[k] != w;
      }
      SumCountsBump(Items(before), Items(after), p);
    } else {
      assert Items(after) == Items(before) + [(w, 1)];
      SumCountsAppend(Items(before), [(w, 1)]);
    }
  }

  /** How many times `w` occurs in `ts`, counted one position at a time. */
  function Occurrences(ts: seq<string>, w: string): nat {
    if ts == [] then 0 else (if ts[0] == w then 1 else 0) + Occurrences(ts[1..], w)
  }

  /** The multiset of the tokens counts each word as often as it occurs. */
  lemma {:induction false} MultisetCountsOccurrences(ts: seq<string>)
    ensures forall w :: multiset(ts)[w] == Occurrences(ts, w)
  {
    if ts != [] {
      assert ts == [ts[0]] + ts[1..];
      MultisetCountsOccurrences(ts[1..]);
    }
  }

  /** Position of the first occurrence of `w` in `ts`. */
  function IndexOf(ts: seq<string>, w: string): (i: nat)
    requires w in ts
    ensures i < |ts| && ts[i] == w && w !in ts[..i]
  {
    if ts[0] == w then 0 else 1 + IndexOf(ts[1..], w)
  }

  lemma {:induction false} IndexOfSnoc(ts: seq<string>, x: string, w: string)
    requires w in ts + [x]
    ensures w in ts ==> IndexOf(ts + [x], w) == IndexOf(ts, w)
    ensures w !in ts ==> IndexOf(ts + [x], w) == |ts|
  {
    if ts != [] && ts[0] != w {
      assert (ts + [x])[1..] == ts[1..] + [x];
      IndexOfSnoc(ts[1..], x, w);
    }
  }

  /** The distinct words of `ts`, each where it first occurs: the key order
      of a dict filled from `ts` one word at a time. */
  function FirstOccurrences(ts: seq<string>): (r: seq<string>)
    ensures Distinct(r) && |r| <= |ts|
    ensures forall w :: w in r <==> w in ts
  {
    if ts == [] then []
    else
      var init := ts[..|ts| - 1];
      var p := FirstOccurrences(init);
      assert ts == init + [ts[|ts| - 1]];
      if ts[|ts| - 1] in p then p else p + [ts[|ts| - 1]]
  }

  /** Keys are ordered by where they first occur. */
  lemma {:induction false} FirstOccurrencesOrdered(ts: seq<string>)
    ensures forall i, j | 0 <= i < j < |FirstOccurrences(ts)| ::
      IndexOf(ts, FirstOccurrences(ts)[i]) < IndexOf(ts, FirstOccurrences(ts)[j])
  {
    if ts != [] {
      var init, x := ts[..|ts| - 1], ts[|ts| - 1];
      assert ts == init + [x];
      FirstOccurrencesOrdered(init);
      var p, r := FirstOccurrences(init), FirstOccurrences(ts);
      forall i, j | 0 <= i < j < |r|
        ensures IndexOf(ts, r[i]) < IndexOf(ts, r[j])
      {
        IndexOfSnoc(init, x, r[i]);
        IndexOfSnoc(init, x, r[j]);
        if j == |p| {
          assert r[j] == x && x !in init;
          assert r[i] in init;
        }
      }
    }
  }

  lemma DistinctSnoc<T>(s: seq<T>, x: T)
    ensures Distinct(s + [x]) <==> Distinct(s) && x !in s
  {
    if Distinct(s + [x]) {
      forall i, j | 0 <= i < j < |s| ensures s[i] != s[j] {
        assert s[i] == (s + [x])[i] && s[j] == (s + [x])[j];
      }
      forall i | 0 <= i < |s| ensures s[i] != x {
        assert s[i] == (s + [x])[i] && x == (s + [x])[|s|];
      }
    }
  }

  /** No word is lost and none is repeated exactly when all tokens differ. */
  lemma {:induction false} FirstOccurrencesAllIffDistinct(ts: seq<string>)
    ensures |FirstOccurrences(ts)| == |ts| <==> Distinct(ts)
    ensures Distinct(ts) ==> FirstOccurrences(ts) == ts
  {
    if ts != [] {
      var init, x := ts[..|ts| - 1], ts[|ts| - 1];
      assert ts == init + [x];
      FirstOccurrencesAllIffDistinct(init);
      DistinctSnoc(init, x);
    }
  }

  /** A list without repeats has as many members as elements. */
  lemma {:induction false} DistinctCardinality(s: seq<string>)
    requires Distinct(s)
    ensures |set w | w in s| == |s|
  {
    if s != [] {
      var init, x := s[..|s| - 1], s[|s| - 1];
      assert s == init + [x];
      DistinctSnoc(init, x);
      DistinctCardinality(init);
      assert (set w | w in s) == (set w | w in init) + {x};
    }
  }

  /** `len(t)`: a dict has as many keys as its insertion order lists. */
  lemma TableSize(t: FreqTable)
    requires Valid(t)
    ensures |t.counts| == |t.order|
  {
    DistinctCardinality(t.order);
    assert t.counts.Keys == set w | w in t.order;
  }
}
