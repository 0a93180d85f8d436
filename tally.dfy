/**
 * Python's `collections.Counter` as the aggregation code uses it: counting the
 * items of a sequence, keeping the distinct items in first-seen (dictionary
 * insertion) order, and `most_common(n)`, which is a stable sort of the entries
 * by count, descending, followed by taking the first `n`.
 */
module Tally {

  /** How many times `x` occurs in `s`. */
  function Occurrences<T(==)>(s: seq<T>, x: T): nat {
    multiset(s)[x]
  }

  /** No item appears twice. */
  predicate Distinct<T(==)>(d: seq<T>) {
    forall i, j :: 0 <= i < j < |d| ==> d[i] != d[j]
  }

  /**
   * The distinct items of `s` in the order in which a dictionary filled from
   * `s` front to back first receives them.
   */
  function FirstSeen<T(==)>(s: seq<T>): (d: seq<T>)
    ensures forall i :: 0 <= i < |d| ==> d[i] in s
    ensures forall i :: 0 <= i < |s| ==> s[i] in d
    ensures Distinct(d)
  {
    if s == [] then []
    else
      var p := s[..|s| - 1];
      assert s == p + [s[|s| - 1]];
      var d := FirstSeen(p);
      if s[|s| - 1] in d then d else d + [s[|s| - 1]]
  }

  /** The set of the items of `s`, as Python's `set()` filled from `s`. */
  function Elems<T>(s: seq<T>): set<T> {
    set i | 0 <= i < |s| :: s[i]
  }

  /** A sequence without repetitions has as many items as its set. */
  lemma {:induction false} DistinctCard<T>(d: seq<T>)
    requires Distinct(d)
    ensures |Elems(d)| == |d|
  {
    if d != [] {
      var t := d[1..];
      assert Distinct(t) by {
        forall i, j | 0 <= i < j < |t| ensures t[i] != t[j] {
          assert t[i] == d[i + 1] && t[j] == d[j + 1];
        }
      }
      DistinctCard(t);
      assert Elems(d) == {d[0]} + Elems(t) by {
        forall x | x in Elems(d) ensures x in {d[0]} + Elems(t) {
          var i :| 0 <= i < |d| && d[i] == x;
          if i > 0 {
            assert t[i - 1] == x;
          }
        }
        forall x | x in Elems(t) ensures x in Elems(d) {
          var i :| 0 <= i < |t| && t[i] == x;
          assert d[i + 1] == x;
        }
      }
      assert d[0] !in Elems(t) by {
        forall i | 0 <= i < |t| ensures t[i] != d[0] {
          assert t[i] == d[i + 1];
        }
      }
    }
  }

  /** The number of distinct items of `s` is the length of its first-seen list. */
  lemma DistinctCount<T>(s: seq<T>)
    ensures |Elems(s)| == |FirstSeen(s)|
  {
    var d := FirstSeen(s);
    assert Elems(d) == Elems(s) by {
      forall x | x in Elems(d) ensures x in Elems(s) {
        var i :| 0 <= i < |d| && d[i] == x;
        assert x in s;
      }
      forall x | x in Elems(s) ensures x in Elems(d) {
        var i :| 0 <= i < |s| && s[i] == x;
        assert x in d;
      }
    }
    DistinctCard(d);
  }

  /** The position of the first occurrence of `x` in `s`. */
  function FirstIndex<T(==)>(s: seq<T>, x: T): (k: nat)
    requires x in s
    ensures k < |s| && s[k] == x
    ensures forall j :: 0 <= j < k ==> s[j] != x
  {
    if s[0] == x then 0 else 1 + FirstIndex(s[1..], x)
  }

  /** Appending an item does not move the first occurrence of an item already present. */
  lemma FirstIndexSnoc<T>(p: seq<T>, y: T, x: T)
    requires x in p
    ensures FirstIndex(p + [y], x) == FirstIndex(p, x)
  {
    var k1 := FirstIndex(p + [y], x);
    var k2 := FirstIndex(p, x);
    assert (p + [y])[k2] == p[k2];
    assert k1 <= k2;
    assert p[k1] == (p + [y])[k1];
  }

  /** The distinct items appear in the order of their first occurrences. */
  lemma {:induction false} FirstSeenOrder<T>(s: seq<T>)
    ensures forall i, j :: 0 <= i < j < |FirstSeen(s)| ==>
      FirstIndex(s, FirstSeen(s)[i]) < FirstIndex(s, FirstSeen(s)[j])
  {
    if s != [] {
      var p := s[..|s| - 1];
      var y := s[|s| - 1];
      assert s == p + [y];
      var d := FirstSeen(p);
      FirstSeenOrder(p);
      forall x | x in p ensures FirstIndex(s, x) == FirstIndex(p, x) {
        FirstIndexSnoc(p, y, x);
      }
      if y !in d {
        assert y !in p;
        forall i | 0 <= i < |d| ensures FirstIndex(s, d[i]) < FirstIndex(s, y) {
          assert d[i] in p;
          assert s[FirstIndex(s, y)] == y;
        }
      }
    }
  }

  /** The entries `(item, count)` for the items of `d`, in that order, counted in `s`. */
  function CountsOf<T(==)>(d: seq<T>, s: seq<T>): (c: seq<(T, nat)>)
    ensures |c| == |d|
    ensures forall i :: 0 <= i < |d| ==> c[i] == (d[i], Occurrences(s, d[i]))
  {
    if d == [] then [] else [(d[0], Occurrences(s, d[0]))] + CountsOf(d[1..], s)
  }

  /** `Counter(s)`: one entry per distinct item, in first-seen order. */
  function Counts<T(==)>(s: seq<T>): (c: seq<(T, nat)>)
    ensures |c| == |FirstSeen(s)|
    ensures forall i :: 0 <= i < |c| ==> c[i].0 == FirstSeen(s)[i]
    ensures forall i :: 0 <= i < |c| ==> c[i].0 in s && c[i].1 == Occurrences(s, c[i].0)
  {
    CountsOf(FirstSeen(s), s)
  }

  /** The sum of the counts of a list of entries. */
  function TotalCount<T>(c: seq<(T, nat)>): nat {
    if c == [] then 0 else c[0].1 + TotalCount(c[1..])
  }

  /** Counting one more item adds one to the total exactly when the item is among `d`. */
  lemma {:induction false} TotalCountSnoc<T>(d: seq<T>, s: seq<T>, x: T)
    requires Distinct(d)
    ensures TotalCount(CountsOf(d, s + [x])) == TotalCount(CountsOf(d, s)) + (if x in d then 1 else 0)
  {
    if d != [] {
      assert Distinct(d[1..]) by {
        forall i, j | 0 <= i < j < |d[1..]| ensures d[1..][i] != d[1..][j] {
          assert d[1..][i] == d[i + 1] && d[1..][j] == d[j + 1];
        }
      }
      TotalCountSnoc(d[1..], s, x);
      assert multiset(s + [x]) == multiset(s) + multiset{x};
      if d[0] == x {
        assert x !in d[1..] by {
          forall k | 0 <= k < |d[1..]| ensures d[1..][k] != x {
            assert d[1..][k] == d[k + 1];
          }
        }
      } else {
        assert x in d <==> x in d[1..] by {
          assert d == [d[0]] + d[1..];
        }
      }
    }
  }

  /** The total over `d + [e]` is the total over `d` plus the count of `e`. */
  lemma {:induction false} TotalCountAppend<T>(d: seq<T>, e: T, s: seq<T>)
    ensures TotalCount(CountsOf(d + [e], s)) == TotalCount(CountsOf(d, s)) + Occurrences(s, e)
  {
    if d != [] {
      assert (d + [e])[1..] == d[1..] + [e];
      TotalCountAppend(d[1..], e, s);
    }
  }

  /** The counts of `Counter(s)` add up to the length of `s`: every item is counted once. */
  lemma {:induction false} TotalCounts<T>(s: seq<T>)
    ensures TotalCount(Counts(s)) == |s|
  {
    if s != [] {
      var p := s[..|s| - 1];
      var y := s[|s| - 1];
      assert s == p + [y];
      var d := FirstSeen(p);
      TotalCounts(p);
      TotalCountSnoc(d, p, y);
      if y !in d {
        TotalCountAppend(d, y, s);
        assert multiset(s) == multiset(p) + multiset{y};
      }
    }
  }

  /**
   * Places `e` before the first entry whose count is at most its own; an entry
   * inserted this way goes ahead of the entries of equal count already placed.
   */
  function InsertByCount<T(==)>(e: (T, nat), l: seq<(T, nat)>): (r: seq<(T, nat)>)
    ensures multiset(r) == multiset(l) + multiset{e}
    ensures |r| == |l| + 1
  {
    if l == [] || l[0].1 <= e.1 then [e] + l
    else
      assert l == [l[0]] + l[1..];
      [l[0]] + InsertByCount(e, l[1..])
  }

  /** Insertion sort of the entries by count, descending. */
  function SortByCount<T(==)>(l: seq<(T, nat)>): (r: seq<(T, nat)>)
    ensures multiset(r) == multiset(l)
    ensures |r| == |l|
  {
    if l == [] then []
    else
      assert l == [l[0]] + l[1..];
      InsertByCount(l[0], SortByCount(l[1..]))
  }

  /** `Counter(s).most_common(n)`. */
  function MostCommon<T(==)>(s: seq<T>, n: nat): (m: seq<(T, nat)>)
    ensures forall i :: 0 <= i < |m| ==> m[i].0 in s && m[i].1 == Occurrences(s, m[i].0)
  {
    SortedCounts(s);
    var r := SortByCount(Counts(s));
    if n < |r| then r[..n] else r
  }

  /** Entry `a` is listed before entry `b`: a higher count, or an equal count and an earlier first occurrence. */
  predicate Ahead<T(==)>(s: seq<T>, a: (T, nat), b: (T, nat))
    requires a.0 in s && b.0 in s
  {
    a.1 > b.1 || (a.1 == b.1 && FirstIndex(s, a.0) < FirstIndex(s, b.0))
  }

  /** Every entry names an item of `s`, and the entries are in `Ahead` order. */
  predicate InOrder<T(==)>(s: seq<T>, r: seq<(T, nat)>) {
    && (forall i :: 0 <= i < |r| ==> r[i].0 in s)
    && (forall i, j :: 0 <= i < j < |r| ==> Ahead(s, r[i], r[j]))
  }

  /** Every entry of `InsertByCount(e, l)` is `e` or an entry of `l`. */
  lemma {:induction false} InsertMembers<T>(e: (T, nat), l: seq<(T, nat)>)
    ensures forall j :: 0 <= j < |InsertByCount(e, l)| ==> InsertByCount(e, l)[j] == e || InsertByCount(e, l)[j] in l
  {
    if l != [] && l[0].1 > e.1 {
      InsertMembers(e, l[1..]);
      assert InsertByCount(e, l) == [l[0]] + InsertByCount(e, l[1..]);
    }
  }

  /** Dropping the first entry keeps the order. */
  lemma TailInOrder<T>(s: seq<T>, l: seq<(T, nat)>)
    requires l != [] && InOrder(s, l)
    ensures InOrder(s, l[1..])
  {
    var t := l[1..];
    forall i, j | 0 <= i < j < |t| ensures Ahead(s, t[i], t[j]) {
      assert t[i] == l[i + 1] && t[j] == l[j + 1];
    }
  }

  /** An entry ahead of every entry of an ordered list can be put in front of it. */
  lemma ConsInOrder<T>(s: seq<T>, a: (T, nat), t: seq<(T, nat)>)
    requires a.0 in s && InOrder(s, t)
    requires forall j :: 0 <= j < |t| ==> Ahead(s, a, t[j])
    ensures InOrder(s, [a] + t)
  {
    var r := [a] + t;
    forall i, j | 0 <= i < j < |r| ensures Ahead(s, r[i], r[j]) {
      assert r[j] == t[j - 1];
      if i > 0 {
        assert r[i] == t[i - 1];
      }
    }
  }

  /**
   * Inserting an entry that occurs first earlier than every entry of an ordered
   * list keeps the list ordered.
   */
  lemma {:induction false} InsertInOrder<T>(s: seq<T>, e: (T, nat), l: seq<(T, nat)>)
    requires e.0 in s && InOrder(s, l)
    requires forall k :: 0 <= k < |l| ==> FirstIndex(s, e.0) < FirstIndex(s, l[k].0)
    ensures InOrder(s, InsertByCount(e, l))
  {
    if l == [] || l[0].1 <= e.1 {
      forall j | 0 <= j < |l| ensures Ahead(s, e, l[j]) {
        if j > 0 {
          assert Ahead(s, l[0], l[j]);
        }
      }
      ConsInOrder(s, e, l);
    } else {
      var t := l[1..];
      TailInOrder(s, l);
      InsertInOrder(s, e, t);
      var rt := InsertByCount(e, t);
      InsertMembers(e, t);
      forall j | 0 <= j < |rt| ensures Ahead(s, l[0], rt[j]) {
        if rt[j] != e {
          var m :| 0 <= m < |t| && t[m] == rt[j];
          assert rt[j] == l[m + 1];
        }
      }
      ConsInOrder(s, l[0], rt);
    }
  }

  /** Every entry of `SortByCount(l)` is an entry of `l`. */
  lemma {:induction false} SortMembers<T>(l: seq<(T, nat)>)
    ensures forall j :: 0 <= j < |SortByCount(l)| ==> SortByCount(l)[j] in l
  {
    if l != [] {
      SortMembers(l[1..]);
      InsertMembers(l[0], SortByCount(l[1..]));
    }
  }

  /**
   * Sorting entries whose items are listed by first occurrence yields the entries
   * in `Ahead` order: the sort is stable.
   */
  lemma {:induction false} SortInOrder<T>(s: seq<T>, l: seq<(T, nat)>)
    requires forall k :: 0 <= k < |l| ==> l[k].0 in s
    requires forall i, j :: 0 <= i < j < |l| ==> FirstIndex(s, l[i].0) < FirstIndex(s, l[j].0)
    ensures InOrder(s, SortByCount(l))
  {
    if l != [] {
      var t := l[1..];
      forall i, j | 0 <= i < j < |t| ensures FirstIndex(s, t[i].0) < FirstIndex(s, t[j].0) {
        assert t[i] == l[i + 1] && t[j] == l[j + 1];
      }
      SortInOrder(s, t);
      var st := SortByCount(t);
      SortMembers(t);
      forall k | 0 <= k < |st| ensures FirstIndex(s, l[0].0) < FirstIndex(s, st[k].0) {
        var m :| 0 <= m < |t| && t[m] == st[k];
        assert t[m] == l[m + 1];
      }
      InsertInOrder(s, l[0], st);
    }
  }

  /** The sorted counter: every entry is a counted item of `s`, and the entries are in `Ahead` order. */
  lemma SortedCounts<T>(s: seq<T>)
    ensures multiset(SortByCount(Counts(s))) == multiset(Counts(s))
    ensures InOrder(s, SortByCount(Counts(s)))
    ensures forall i :: 0 <= i < |SortByCount(Counts(s))| ==>
      SortByCount(Counts(s))[i].1 == Occurrences(s, SortByCount(Counts(s))[i].0)
  {
    var c := Counts(s);
    var d := FirstSeen(s);
    FirstSeenOrder(s);
    SortInOrder(s, c);
    var r := SortByCount(c);
    SortMembers(c);
    forall i | 0 <= i < |r| ensures r[i].1 == Occurrences(s, r[i].0) {
      var m :| 0 <= m < |c| && c[m] == r[i];
    }
  }

  /** `most_common(n)` returns `n` entries, or every distinct item when there are fewer. */
  lemma MostCommonLength<T>(s: seq<T>, n: nat)
    ensures |MostCommon(s, n)| == if n < |FirstSeen(s)| then n else |FirstSeen(s)|
  {
  }

  /**
   * No item is listed twice in `most_common(n)`, counts never increase along the list, and equal counts
   * are listed in first-occurrence order.
   */
  lemma MostCommonEntries<T>(s: seq<T>, n: nat)
    ensures forall i, j :: 0 <= i < j < |MostCommon(s, n)| ==>
      MostCommon(s, n)[i].0 != MostCommon(s, n)[j].0
    ensures forall i, j :: 0 <= i < j < |MostCommon(s, n)| ==>
      MostCommon(s, n)[i].1 >= MostCommon(s, n)[j].1
    ensures forall i, j :: 0 <= i < j < |MostCommon(s, n)| && MostCommon(s, n)[i].1 == MostCommon(s, n)[j].1 ==>
      FirstIndex(s, MostCommon(s, n)[i].0) < FirstIndex(s, MostCommon(s, n)[j].0)
  {
    var m := MostCommon(s, n);
    MostCommonInOrder(s, n);
    forall i, j | 0 <= i < j < |m|
      ensures m[i].0 != m[j].0 && m[i].1 >= m[j].1
      ensures m[i].1 == m[j].1 ==> FirstIndex(s, m[i].0) < FirstIndex(s, m[j].0)
    {
      assert Ahead(s, m[i], m[j]);
    }
  }

  /** `most_common(n)` is a prefix of the sorted counter, so it is in `Ahead` order too. */
  lemma MostCommonInOrder<T>(s: seq<T>, n: nat)
    ensures InOrder(s, MostCommon(s, n))
  {
    SortedCounts(s);
    var r := SortByCount(Counts(s));
    var m := MostCommon(s, n);
    assert forall i :: 0 <= i < |m| ==> m[i] == r[i];
  }

  /**
   * An item of `s` left out of `most_common(n)` has a count no higher than any
   * listed entry, and on equal counts it occurs first later than that entry.
   */
  lemma MostCommonMaximal<T>(s: seq<T>, n: nat, x: T)
    requires x in s
    requires forall i :: 0 <= i < |MostCommon(s, n)| ==> MostCommon(s, n)[i].0 != x
    ensures forall i :: 0 <= i < |MostCommon(s, n)| ==>
      Occurrences(s, x) <= MostCommon(s, n)[i].1
    ensures forall i :: 0 <= i < |MostCommon(s, n)| && Occurrences(s, x) == MostCommon(s, n)[i].1 ==>
      FirstIndex(s, MostCommon(s, n)[i].0) < FirstIndex(s, x)
  {
    var r := SortByCount(Counts(s));
    var m := MostCommon(s, n);
    var p := SortedPosition(s, x);
    SortedCounts(s);
    MostCommonPrefix(s, n);
    assert forall i :: 0 <= i < |m| ==> r[i].0 != x;
    PrefixAhead(s, r, |m|, p, (x, Occurrences(s, x)));
    forall i | 0 <= i < |m|
      ensures Occurrences(s, x) <= m[i].1
      ensures Occurrences(s, x) == m[i].1 ==> FirstIndex(s, m[i].0) < FirstIndex(s, x)
    {
      assert Ahead(s, r[i], (x, Occurrences(s, x)));
    }
  }

  /** `most_common(n)` is a prefix of the sorted counter. */
  lemma MostCommonPrefix<T>(s: seq<T>, n: nat)
    ensures |MostCommon(s, n)| <= |SortByCount(Counts(s))|
    ensures forall i :: 0 <= i < |MostCommon(s, n)| ==> MostCommon(s, n)[i] == SortByCount(Counts(s))[i]
  {
  }

  /**
   * In an `Ahead`-ordered list, an entry `e` whose item is missing from a prefix
   * comes after every entry of that prefix.
   */
  lemma PrefixAhead<T>(s: seq<T>, r: seq<(T, nat)>, k: nat, p: nat, e: (T, nat))
    requires InOrder(s, r) && k <= |r| && p < |r| && r[p] == e
    requires forall i :: 0 <= i < k ==> r[i].0 != e.0
    ensures forall i :: 0 <= i < k ==> Ahead(s, r[i], e)
  {
    assert k <= p;
  }

  /** Every item of `s` has its entry somewhere in the sorted counter. */
  lemma SortedPosition<T>(s: seq<T>, x: T) returns (p: nat)
    requires x in s
    ensures p < |SortByCount(Counts(s))| && SortByCount(Counts(s))[p] == (x, Occurrences(s, x))
  {
    var c := Counts(s);
    var d := FirstSeen(s);
    var r := SortByCount(c);
    var k :| 0 <= k < |d| && d[k] == x;
    assert c[k] == (x, Occurrences(s, x));
    assert c[k] in multiset(c);
    assert c[k] in multiset(r);
    p :| 0 <= p < |r| && r[p] == c[k];
  }

  /** When `n` covers every distinct item, `most_common(n)` lists the whole counter. */
  lemma MostCommonAll<T>(s: seq<T>, n: nat)
    requires n >= |FirstSeen(s)|
    ensures multiset(MostCommon(s, n)) == multiset(Counts(s))
  {
  }
}
