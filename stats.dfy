/**
 * The median pandas' `Series.median()` computes over the values that are present:
 * the middle value in sorted order, or the mean of the two middle values when
 * their number is even. Exact reals stand in for floating point.
 */
module Stats {

  predicate Sorted(s: seq<real>) {
    forall i, j :: 0 <= i < j < |s| ==> s[i] <= s[j]
  }

  /** Puts `x` before the first value that is not smaller. */
  function Insert(x: real, s: seq<real>): seq<real> {
    if s == [] || x <= s[0] then [x] + s else [s[0]] + Insert(x, s[1..])
  }

  /** Inserting adds `x` and nothing else. */
  lemma {:induction false} InsertMultiset(x: real, s: seq<real>)
    ensures multiset(Insert(x, s)) == multiset(s) + multiset{x}
  {
    if s != [] && x > s[0] {
      InsertMultiset(x, s[1..]);
      assert s == [s[0]] + s[1..];
    }
  }

  /** Every value of `Insert(x, s)` is `x` or a value of `s`. */
  lemma {:induction false} InsertMembers(x: real, s: seq<real>)
    ensures forall k :: 0 <= k < |Insert(x, s)| ==> Insert(x, s)[k] == x || Insert(x, s)[k] in s
  {
    if s != [] && x > s[0] {
      InsertMembers(x, s[1..]);
      var r := Insert(x, s);
      assert r == [s[0]] + Insert(x, s[1..]);
      assert forall k :: 1 <= k < |r| ==> r[k] == Insert(x, s[1..])[k - 1];
    }
  }

  /** Inserting into an ascending sequence keeps it ascending. */
  lemma {:induction false} InsertSorted(x: real, s: seq<real>)
    requires Sorted(s)
    ensures Sorted(Insert(x, s))
  {
    if s != [] && x > s[0] {
      var t := s[1..];
      assert Sorted(t) by {
        forall i, j | 0 <= i < j < |t| ensures t[i] <= t[j] {
          assert t[i] == s[i + 1] && t[j] == s[j + 1];
        }
      }
      InsertSorted(x, t);
      InsertMembers(x, t);
      var rest := Insert(x, t);
      forall k | 0 <= k < |rest| ensures s[0] <= rest[k] {
        if rest[k] != x {
          var j :| 0 <= j < |t| && t[j] == rest[k];
          assert s[j + 1] == rest[k];
        }
      }
      var r := Insert(x, s);
      assert r == [s[0]] + rest;
      forall i, j | 0 <= i < j < |r| ensures r[i] <= r[j] {
        assert r[j] == rest[j - 1];
        if i > 0 {
          assert r[i] == rest[i - 1];
        }
      }
    }
  }

  /** The values of `s` in ascending order. */
  function Sort(s: seq<real>): (r: seq<real>)
    ensures Sorted(r)
    ensures multiset(r) == multiset(s)
  {
    if s == [] then []
    else
      assert s == [s[0]] + s[1..];
      InsertSorted(s[0], Sort(s[1..]));
      InsertMultiset(s[0], Sort(s[1..]));
      Insert(s[0], Sort(s[1..]))
  }

  /** There is only one ascending arrangement of a multiset of values. */
  lemma {:induction false} SortedUnique(a: seq<real>, b: seq<real>)
    requires Sorted(a) && Sorted(b) && multiset(a) == multiset(b)
    ensures a == b
    decreases |a|
  {
    assert |b| == |a| by { assert |multiset(a)| == |multiset(b)|; }
    if a != [] {
      var i := MemberIndex(b, a[0]);
      var j := MemberIndex(a, b[0]);
      assert a[0] == b[0] by {
        assert b[0] <= b[i];
        assert a[0] <= a[j];
      }
      TailMultiset(a);
      TailMultiset(b);
      SortedUnique(a[1..], b[1..]);
      assert a == [a[0]] + a[1..] && b == [b[0]] + b[1..];
    }
  }

  /** An index at which a value of the multiset occurs. */
  lemma MemberIndex(s: seq<real>, x: real) returns (i: nat)
    requires x in multiset(s)
    ensures i < |s| && s[i] == x
  {
    assert x in s;
    i :| 0 <= i < |s| && s[i] == x;
  }

  lemma TailMultiset(s: seq<real>)
    requires s != []
    ensures multiset(s[1..]) == multiset(s) - multiset{s[0]}
  {
    assert s == [s[0]] + s[1..];
  }

  /** How many values of `s` are at most `m`, and at least `m`. */
  function CountAtMost(s: seq<real>, m: real): nat {
    if s == [] then 0 else (if s[0] <= m then 1 else 0) + CountAtMost(s[1..], m)
  }

  function CountAtLeast(s: seq<real>, m: real): nat {
    if s == [] then 0 else (if s[0] >= m then 1 else 0) + CountAtLeast(s[1..], m)
  }

  /** The middle value of a non-empty list, or the mean of the two middle values. */
  function Middle(r: seq<real>): real
    requires |r| > 0
  {
    var k := |r| / 2;
    if |r| % 2 == 1 then r[k] else (r[k - 1] + r[k]) / 2.0
  }

  /** The median of a non-empty list of values: the middle of the values in ascending order. */
  function Median(s: seq<real>): real
    requires |s| > 0
  {
    assert |Sort(s)| == |s| by { assert |multiset(Sort(s))| == |multiset(s)|; }
    Middle(Sort(s))
  }

  /** In an ascending list the middle has at least half of the values on either side. */
  lemma SortedHalves(r: seq<real>)
    requires Sorted(r) && |r| > 0
    ensures 2 * CountAtMost(r, Middle(r)) >= |r|
    ensures 2 * CountAtLeast(r, Middle(r)) >= |r|
  {
    var m := Middle(r);
    var k := |r| / 2;
    if |r| % 2 == 1 {
      PrefixAtMost(r, k + 1, m);
      SuffixAtLeast(r, k, m);
    } else {
      assert r[k - 1] <= r[k];
      PrefixAtMost(r, k, m);
      SuffixAtLeast(r, k, m);
    }
  }

  /**
   * The median splits the values in half: at least half of them are at most the
   * median and at least half are at least the median.
   */
  lemma MedianHalves(s: seq<real>)
    requires |s| > 0
    ensures 2 * CountAtMost(s, Median(s)) >= |s|
    ensures 2 * CountAtLeast(s, Median(s)) >= |s|
  {
    var r := Sort(s);
    assert |r| == |s| by { assert |multiset(r)| == |multiset(s)|; }
    SortedHalves(r);
    CountsPermutation(s, r, Median(s));
  }

  /** The median depends only on the values, not on their order. */
  lemma MedianOfPermutation(s: seq<real>, t: seq<real>)
    requires |s| > 0 && multiset(s) == multiset(t)
    ensures |t| > 0 && Median(s) == Median(t)
  {
    assert |t| == |s| by { assert |multiset(t)| == |multiset(s)|; }
    SortedUnique(Sort(s), Sort(t));
  }

  /** In a sorted list, when the first `k` values are at most `m`, so many count. */
  lemma {:induction false} PrefixAtMost(r: seq<real>, k: nat, m: real)
    requires Sorted(r) && 0 < k <= |r| && r[k - 1] <= m
    ensures CountAtMost(r, m) >= k
  {
    if k > 1 {
      PrefixAtMost(r[1..], k - 1, m);
    }
  }

  /** In a sorted list, when `r[k]` is at least `m`, the last `|r| - k` values count. */
  lemma {:induction false} SuffixAtLeast(r: seq<real>, k: nat, m: real)
    requires Sorted(r) && k < |r| && r[k] >= m
    ensures CountAtLeast(r, m) >= |r| - k
  {
    if k > 0 {
      SuffixAtLeast(r[1..], k - 1, m);
    } else {
      AllAtLeast(r, m);
    }
  }

  lemma {:induction false} AllAtLeast(r: seq<real>, m: real)
    requires Sorted(r) && (r == [] || r[0] >= m)
    ensures CountAtLeast(r, m) == |r|
  {
    if r != [] {
      AllAtLeast(r[1..], m);
    }
  }

  /** The counts depend only on the multiset of values. */
  lemma {:induction false} CountsPermutation(s: seq<real>, t: seq<real>, m: real)
    requires multiset(s) == multiset(t)
    ensures CountAtMost(s, m) == CountAtMost(t, m)
    ensures CountAtLeast(s, m) == CountAtLeast(t, m)
    decreases |s|
  {
    if s != [] {
      var i := MemberIndex(t, s[0]);
      var front, back := t[..i], t[i + 1..];
      var t' := front + back;
      RemoveAt(t, i);
      TailMultiset(s);
      assert multiset(s[1..]) == multiset(t');
      CountsPermutation(s[1..], t', m);
      var mid := [t[i]] + back;
      assert mid[1..] == back;
      assert t == front + mid;
      CountsSplit(front, mid, m);
      CountsSplit(front, back, m);
      assert t[i] == s[0];
      assert CountAtMost(mid, m) == (if s[0] <= m then 1 else 0) + CountAtMost(back, m);
      assert CountAtLeast(mid, m) == (if s[0] >= m then 1 else 0) + CountAtLeast(back, m);
    }
  }

  lemma RemoveAt(t: seq<real>, i: nat)
    requires i < |t|
    ensures multiset(t[..i] + t[i + 1..]) == multiset(t) - multiset{t[i]}
  {
    assert t == t[..i] + [t[i]] + t[i + 1..];
  }

  lemma {:induction false} CountsSplit(a: seq<real>, b: seq<real>, m: real)
    ensures CountAtMost(a + b, m) == CountAtMost(a, m) + CountAtMost(b, m)
    ensures CountAtLeast(a + b, m) == CountAtLeast(a, m) + CountAtLeast(b, m)
  {
    if a != [] {
      assert (a + b)[1..] == a[1..] + b;
      CountsSplit(a[1..], b, m);
    } else {
      assert a + b == b;
    }
  }
}
