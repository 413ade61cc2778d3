/**
  Ranking entries by count, as `most_common(n)` and
  `sorted(items, key=lambda item: item[1], reverse=True)[:n]` do. Python's
  sort is stable, also with `reverse=True`, so entries with equal counts keep
  the order they had in the input. For `n > 0`, `heapq.nlargest`, which
  `most_common(n)` calls, is documented to return the same list as that sort
  and slice; for `n <= 0` it returns an empty list (the slice would not for a
  negative `n`), which is how `TextAnalyzer.TopN` treats that case.
 */
module Ranking {
  import opened Frequencies

  /** Counts never go up from one entry to a later one. */
  predicate NonIncreasing(s: seq<Entry>) {
    forall i, j | 0 <= i < j < |s| :: s[i].1 >= s[j].1
  }

  /** The entries of `s` whose count is `c`, in their order in `s`: one tie group. */
  function WithCount(s: seq<Entry>, c: nat): (r: seq<Entry>)
    ensures |r| <= |s|
  {
    if s == [] then []
    else (if s[0].1 == c then [s[0]] else []) + WithCount(s[1..], c)
  }

  /** A tie group holds exactly the entries of `s` with count `c`. */
  lemma {:induction false} InGroup(s: seq<Entry>, c: nat)
    ensures forall e :: e in WithCount(s, c) <==> e in s && e.1 == c
  {
    if s != [] {
      InGroup(s[1..], c);
      assert s == [s[0]] + s[1..];
    }
  }

  lemma {:induction false} WithCountAppend(a: seq<Entry>, b: seq<Entry>, c: nat)
    ensures WithCount(a + b, c) == WithCount(a, c) + WithCount(b, c)
  {
    if a == [] {
      assert a + b == b;
    } else {
      var h := if a[0].1 == c then [a[0]] else [];
      assert (a + b)[0] == a[0] && (a + b)[1..] == a[1..] + b;
      assert WithCount(a + b, c) == h + WithCount(a[1..] + b, c);
      WithCountAppend(a[1..], b, c);
      assert WithCount(a, c) == h + WithCount(a[1..], c);
    }
  }

  /** Puts `e` after every entry with a higher count and before the rest, so
      that it stays ahead of the entries it tied with. */
  function Insert(e: Entry, s: seq<Entry>): (r: seq<Entry>)
    requires NonIncreasing(s)
    ensures NonIncreasing(r)
    ensures multiset(r) == multiset(s) + multiset{e}
    ensures |r| == |s| + 1
  {
    if s == [] || s[0].1 <= e.1 then [e] + s
    else
      var rest := Insert(e, s[1..]);
      RestBelowHead(e, s, rest);
      assert s == [s[0]] + s[1..];
      [s[0]] + rest
  }

  lemma RestBelowHead(e: Entry, s: seq<Entry>, rest: seq<Entry>)
    requires NonIncreasing(s) && s != [] && s[0].1 > e.1
    requires multiset(rest) == multiset(s[1..]) + multiset{e}
    requires NonIncreasing(rest)
    ensures NonIncreasing([s[0]] + rest)
  {
    forall k | 0 <= k < |rest| ensures rest[k].1 <= s[0].1 {
      assert rest[k] in multiset(rest);
      if rest[k] != e {
        assert rest[k] in s[1..];
      }
    }
  }

  /** `sorted(s, key=count, reverse=True)`: highest count first, ties kept
      in input order (insertion sort, which is stable). */
  function SortByCount(s: seq<Entry>): (r: seq<Entry>)
    ensures NonIncreasing(r)
    ensures multiset(r) == multiset(s)
    ensures |r| == |s|
  {
    if s == [] then [] else
      assert s == [s[0]] + s[1..];
      Insert(s[0], SortByCount(s[1..]))
  }

  lemma {:induction false} InsertStable(e: Entry, s: seq<Entry>, c: nat)
    requires NonIncreasing(s)
    ensures WithCount(Insert(e, s), c) == WithCount([e] + s, c)
  {
    if s != [] && s[0].1 > e.1 {
      var head, tail := s[0], s[1..];
      var rest := Insert(e, tail);
      InsertStable(e, tail, c);
      InsertBehindHead(e, s);
      GroupsCommute(head, e, rest, tail, c);
      assert s == [head] + tail;
      assert [e] + s == [e, head] + tail;
    }
  }

  lemma InsertBehindHead(e: Entry, s: seq<Entry>)
    requires NonIncreasing(s) && s != [] && s[0].1 > e.1
    ensures Insert(e, s) == [s[0]] + Insert(e, s[1..])
  {
  }

  /** Two entries with different counts never share a tie group, so their
      order does not matter to any group. */
  lemma GroupsCommute(a: Entry, b: Entry, rest: seq<Entry>, tail: seq<Entry>, c: nat)
    requires a.1 != b.1
    requires WithCount(rest, c) == WithCount([b] + tail, c)
    ensures WithCount([a] + rest, c) == WithCount([b, a] + tail, c)
  {
    var ga := if a.1 == c then [a] else [];
    var gb := if b.1 == c then [b] else [];
    assert ([a] + rest)[1..] == rest;
    assert ([b] + tail)[1..] == tail;
    assert ([b, a] + tail)[1..] == [a] + tail;
    assert ([a] + tail)[1..] == tail;
    assert WithCount([a] + rest, c) == ga + gb + WithCount(tail, c);
    assert WithCount([b, a] + tail, c) == gb + (ga + WithCount(tail, c));
    assert ga == [] || gb == [];
  }

  /** Sorting is stable: every tie group comes out in its input order. */
  lemma {:induction false} SortStable(s: seq<Entry>, c: nat)
    ensures WithCount(SortByCount(s), c) == WithCount(s, c)
  {
    if s != [] {
      SortStable(s[1..], c);
      InsertStable(s[0], SortByCount(s[1..]), c);
      WithCountAppend([s[0]], SortByCount(s[1..]), c);
      WithCountAppend([s[0]], s[1..], c);
      assert s == [s[0]] + s[1..];
    }
  }

  /** The first entry of a non-increasing list has the largest count. */
  lemma TopCountIsMax(q: seq<Entry>, c: nat)
    requires NonIncreasing(q) && q != []
    ensures WithCount(q, c) != [] ==> c <= q[0].1
  {
    if WithCount(q, c) != [] {
      InGroup(q, c);
      var e := WithCount(q, c)[0];
      assert e in WithCount(q, c);
      var k :| 0 <= k < |q| && q[k] == e;
    }
  }

  lemma HeadInOwnGroup(q: seq<Entry>)
    ensures q != [] ==> q[0] in WithCount(q, q[0].1)
  {
  }

  /** Two non-increasing lists with the same tie groups are the same list. */
  lemma {:induction false} SameGroupsSameList(r: seq<Entry>, q: seq<Entry>)
    requires NonIncreasing(r) && NonIncreasing(q)
    requires forall c: nat :: WithCount(r, c) == WithCount(q, c)
    ensures r == q
    decreases |r|
  {
    if r == [] || q == [] {
      HeadInOwnGroup(r);
      HeadInOwnGroup(q);
    } else {
      var a, b := r[0].1, q[0].1;
      TopCountIsMax(q, a);
      TopCountIsMax(r, b);
      assert WithCount(r, a)[0] == r[0];
      assert WithCount(q, b)[0] == q[0];
      assert a == b;
      assert r[0] == q[0];
      forall c: nat ensures WithCount(r[1..], c) == WithCount(q[1..], c) {
        var head := if a == c then [r[0]] else [];
        assert WithCount(r, c) == head + WithCount(r[1..], c);
        assert WithCount(q, c) == head + WithCount(q[1..], c);
        assert WithCount(r[1..], c) == WithCount(r, c)[|head|..];
        assert WithCount(q[1..], c) == WithCount(q, c)[|head|..];
      }
      SameGroupsSameList(r[1..], q[1..]);
      assert r == [r[0]] + r[1..] && q == [q[0]] + q[1..];
    }
  }

  /** The stable descending order is the only one: any non-increasing
      arrangement that keeps each tie group in input order is `SortByCount`. */
  lemma SortUnique(s: seq<Entry>, r: seq<Entry>)
    requires NonIncreasing(r)
    requires forall c: nat :: WithCount(r, c) == WithCount(s, c)
    ensures r == SortByCount(s)
  {
    forall c: nat ensures WithCount(r, c) == WithCount(SortByCount(s), c) {
      SortStable(s, c);
    }
    SameGroupsSameList(r, SortByCount(s));
  }

  /** `s[:n]` for `n >= 0`. */
  function Take(s: seq<Entry>, n: nat): (r: seq<Entry>)
    ensures |r| == if n < |s| then n else |s|
    ensures r <= s
  {
    if n < |s| then s[..n] else s
  }

  /** The first `n` entries of the stable descending order: as many as asked
      for or as there are, highest count first, every one at least as frequent
      as anything left out, and each tie group a prefix of its input order. */
  lemma TopOfSorted(s: seq<Entry>, n: nat)
    ensures |Take(SortByCount(s), n)| == if n < |s| then n else |s|
    ensures NonIncreasing(Take(SortByCount(s), n))
    ensures multiset(Take(SortByCount(s), n)) <= multiset(s)
    ensures forall e, f | e in Take(SortByCount(s), n) && f in s && f !in Take(SortByCount(s), n) ::
      e.1 >= f.1
    ensures forall c: nat :: WithCount(Take(SortByCount(s), n), c) <= WithCount(s, c)
  {
    var q := SortByCount(s);
    TakePrefix(q, n);
    TakeDominates(q, n);
    SortKeepsMembers(s);
    forall c: nat ensures WithCount(Take(q, n), c) <= WithCount(s, c) {
      TakeGroupIsPrefix(q, n, c);
      SortStable(s, c);
    }
  }

  /** A prefix of a non-increasing list is non-increasing and drawn from it. */
  lemma TakePrefix(q: seq<Entry>, n: nat)
    requires NonIncreasing(q)
    ensures NonIncreasing(Take(q, n))
    ensures multiset(Take(q, n)) <= multiset(q)
  {
    var r := Take(q, n);
    assert q == r + q[|r|..];
    assert multiset(q) == multiset(r) + multiset(q[|r|..]);
  }

  lemma SortKeepsMembers(s: seq<Entry>)
    ensures forall f | f in s :: f in SortByCount(s)
  {
    forall f | f in s ensures f in SortByCount(s) {
      assert f in multiset(SortByCount(s));
    }
  }

  lemma TakeGroupIsPrefix(q: seq<Entry>, n: nat, c: nat)
    ensures WithCount(Take(q, n), c) <= WithCount(q, c)
  {
    var r := Take(q, n);
    assert q == r + q[|r|..];
    WithCountAppend(r, q[|r|..], c);
  }

  /** In a non-increasing list, every entry kept by `Take` is at least as
      frequent as every entry cut off. */
  lemma TakeDominates(q: seq<Entry>, n: nat)
    requires NonIncreasing(q)
    ensures forall e, f | e in Take(q, n) && f in q && f !in Take(q, n) :: e.1 >= f.1
  {
    var r := Take(q, n);
    forall e, f | e in r && f in q && f !in r ensures e.1 >= f.1 {
      var j :| 0 <= j < |q| && q[j] == f;
      var i :| 0 <= i < |r| && r[i] == e;
      assert forall k | 0 <= k < |r| :: r[k] == q[k];
      assert i < j;
    }
  }

  /** Two tied entries of `a` appear in their tie group in the same order. */
  lemma {:induction false} GroupKeepsOrder(a: seq<Entry>, i: nat, j: nat)
    requires i < j < |a| && a[i].1 == a[j].1
    ensures exists p, q ::
      (0 <= p < q < |WithCount(a, a[i].1)| && WithCount(a, a[i].1)[p] == a[i] && WithCount(a, a[i].1)[q] == a[j])
  {
    var c := a[i].1;
    var rest := WithCount(a[1..], c);
    if i == 0 {
      InGroup(a[1..], c);
      assert a[j] == a[1..][j - 1] && a[j] in rest;
      var q :| 0 <= q < |rest| && rest[q] == a[j];
      assert WithCount(a, c)[0] == a[0] && WithCount(a, c)[q + 1] == a[j];
    } else {
      GroupKeepsOrder(a[1..], i - 1, j - 1);
      var p, q :| 0 <= p < q < |rest| && rest[p] == a[i] && rest[q] == a[j];
      var h := if a[0].1 == c then 1 else 0;
      assert WithCount(a, c)[p + h] == a[i] && WithCount(a, c)[q + h] == a[j];
    }
  }

  /** Two entries of a tie group appear in `a` in the same order. */
  lemma {:induction false} GroupOrderInInput(a: seq<Entry>, c: nat, p: nat, q: nat)
    requires p < q < |WithCount(a, c)|
    ensures exists i, j :: 0 <= i < j < |a| && a[i] == WithCount(a, c)[p] && a[j] == WithCount(a, c)[q]
  {
    var g, rest := WithCount(a, c), WithCount(a[1..], c);
    var h := if a[0].1 == c then 1 else 0;
    assert g == (if a[0].1 == c then [a[0]] else []) + rest;
    if h == 1 && p == 0 {
      GroupHeadFirst(a, c, q);
    } else {
      assert p - h < q - h < |rest|;
      GroupOrderInInput(a[1..], c, p - h, q - h);
      var i, j :| 0 <= i < j < |a[1..]| && a[1..][i] == rest[p - h] && a[1..][j] == rest[q - h];
      assert g[p] == rest[p - h] && g[q] == rest[q - h];
      assert a[i + 1] == g[p] && a[j + 1] == g[q];
    }
  }

  lemma GroupHeadFirst(a: seq<Entry>, c: nat, q: nat)
    requires a != [] && a[0].1 == c && 0 < q < |WithCount(a, c)|
    ensures exists j :: 0 < j < |a| && a[0] == WithCount(a, c)[0] && a[j] == WithCount(a, c)[q]
  {
    var g, rest := WithCount(a, c), WithCount(a[1..], c);
    assert g == [a[0]] + rest;
    assert g[q] == rest[q - 1];
    InGroup(a[1..], c);
    assert g[q] in a[1..];
    var k :| 0 <= k < |a[1..]| && a[1..][k] == g[q];
    assert a[k + 1] == g[q];
  }

  /** If every tie group of `r` is a prefix of the matching group of `s`,
      then tied entries of `r` come in the order they have in `s`. */
  lemma TiesKeepInputOrder(s: seq<Entry>, r: seq<Entry>, i: nat, j: nat)
    requires forall c: nat :: WithCount(r, c) <= WithCount(s, c)
    requires i < j < |r| && r[i].1 == r[j].1
    ensures exists i', j' :: 0 <= i' < j' < |s| && s[i'] == r[i] && s[j'] == r[j]
  {
    var c := r[i].1;
    var gr, gs := WithCount(r, c), WithCount(s, c);
    GroupKeepsOrder(r, i, j);
    var p, q :| 0 <= p < q < |gr| && gr[p] == r[i] && gr[q] == r[j];
    assert gr <= gs;
    assert gs[p] == r[i] && gs[q] == r[j];
    GroupOrderInInput(s, c, p, q);
  }
}
