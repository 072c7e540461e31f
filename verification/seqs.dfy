/** Order-preserving filtering, the model of JavaScript's `Array.prototype.filter`
    with a pure predicate. */
module Seqs {
  import opened Wrappers

  /** `sub` is `s` with some elements left out and the rest in their order. */
  predicate IsSubsequence<T(==)>(sub: seq<T>, s: seq<T>)
    decreases |s|
  {
    || |sub| == 0
    || (&& |s| > 0
        && (|| IsSubsequence(sub, s[1..])
            || (sub[0] == s[0] && IsSubsequence(sub[1..], s[1..]))))
  }

  /** A subsequence holds each value at most as often as the sequence does. */
  lemma {:induction false} SubsequenceMultiset<T>(sub: seq<T>, s: seq<T>)
    requires IsSubsequence(sub, s)
    ensures multiset(sub) <= multiset(s)
    decreases |s|
  {
    if |sub| != 0 {
      assert s == [s[0]] + s[1..];
      if IsSubsequence(sub, s[1..]) {
        SubsequenceMultiset(sub, s[1..]);
      } else {
        SubsequenceMultiset(sub[1..], s[1..]);
        assert sub == [sub[0]] + sub[1..];
      }
    }
  }

  lemma {:induction false} SubsequenceReflexive<T>(s: seq<T>)
    ensures IsSubsequence(s, s)
    decreases |s|
  {
    if |s| != 0 {
      SubsequenceReflexive(s[1..]);
    }
  }

  /** What holds of every element of a sequence holds of every element of
      its subsequences. */
  lemma {:induction false} SubsequenceAll<T>(sub: seq<T>, s: seq<T>, p: T -> bool)
    requires IsSubsequence(sub, s)
    requires forall i :: 0 <= i < |s| ==> p(s[i])
    ensures forall i :: 0 <= i < |sub| ==> p(sub[i])
  {
    SubsequenceMultiset(sub, s);
    forall i | 0 <= i < |sub|
      ensures p(sub[i])
    {
      assert sub[i] in multiset(s);
    }
  }

  /** A subsequence of a subsequence is a subsequence. */
  lemma {:induction false} SubsequenceTransitive<T>(a: seq<T>, b: seq<T>, c: seq<T>)
    requires IsSubsequence(a, b) && IsSubsequence(b, c)
    ensures IsSubsequence(a, c)
    decreases |c|
  {
    if |a| != 0 {
      if IsSubsequence(b, c[1..]) {
        SubsequenceTransitive(a, b, c[1..]);
      } else if IsSubsequence(a, b[1..]) {
        SubsequenceTransitive(a, b[1..], c[1..]);
      } else {
        SubsequenceTransitive(a[1..], b[1..], c[1..]);
      }
    }
  }

  /** One step of the filter keeps it a subsequence. */
  lemma StepSub<T>(s: seq<T>, p: T -> bool, rest: seq<T>, r: seq<T>)
    requires |s| > 0
    requires IsSubsequence(rest, s[1..])
    requires r == if p(s[0]) then [s[0]] + rest else rest
    ensures IsSubsequence(r, s)
  {
    if p(s[0]) {
      assert r[1..] == rest;
    }
  }
  /** One step of the filter keeps it within the multiset of the input. */
  lemma StepMs<T>(s: seq<T>, p: T -> bool, rest: seq<T>, r: seq<T>)
    requires |s| > 0
    requires multiset(rest) <= multiset(s[1..])
    requires r == if p(s[0]) then [s[0]] + rest else rest
    ensures multiset(r) <= multiset(s)
  {
    assert s == [s[0]] + s[1..];
  }
  /** One step of the filter keeps every kept value as often as the input. */
  lemma StepExact<T>(s: seq<T>, p: T -> bool, rest: seq<T>, r: seq<T>)
    requires |s| > 0
    requires multiset(rest) <= multiset(s[1..])
    requires forall i :: 0 <= i < |s[1..]| && p(s[1..][i]) ==> multiset(rest)[s[1..][i]] == multiset(s[1..])[s[1..][i]]
    requires r == if p(s[0]) then [s[0]] + rest else rest
    ensures forall i :: 0 <= i < |s| && p(s[i]) ==> multiset(r)[s[i]] == multiset(s)[s[i]]
  {
    assert s == [s[0]] + s[1..];
    forall i | 0 <= i < |s| && p(s[i])
      ensures multiset(r)[s[i]] == multiset(s)[s[i]]
    {
      var x := s[i];
      if x in s[1..] {
        var j :| 0 <= j < |s[1..]| && s[1..][j] == x;
      } else {
        assert multiset(rest)[x] == 0;
      }
    }
  }

  /** The elements of `s` that satisfy `p`, in their original order: a
      subsequence of `s` holding every element that satisfies `p` as often as
      `s` does, and nothing else. */
  function Filter<T(==)>(s: seq<T>, p: T -> bool): (r: seq<T>)
    ensures |r| <= |s|
    ensures IsSubsequence(r, s)
    ensures multiset(r) <= multiset(s)
    ensures forall i :: 0 <= i < |r| ==> p(r[i])
    ensures forall i :: 0 <= i < |s| && p(s[i]) ==> multiset(r)[s[i]] == multiset(s)[s[i]]
    decreases |s|
  {
    if |s| == 0 then []
    else
      var rest := Filter(s[1..], p);
      var r := if p(s[0]) then [s[0]] + rest else rest;
      StepSub(s, p, rest, r);
      StepMs(s, p, rest, r);
      StepExact(s, p, rest, r);
      r
  }

  /** Membership read off the filter's multiset contract: what is kept comes
      from `s`, and every element satisfying `p` is kept. */
  lemma FilterMembers<T>(s: seq<T>, p: T -> bool)
    ensures forall i :: 0 <= i < |Filter(s, p)| ==> Filter(s, p)[i] in s
    ensures forall i :: 0 <= i < |s| && p(s[i]) ==> s[i] in Filter(s, p)
  {
    var r := Filter(s, p);
    assert forall i :: 0 <= i < |r| ==> r[i] in multiset(s);
    assert forall i :: 0 <= i < |s| && p(s[i]) ==> s[i] in multiset(r);
  }

  /** The `j`-th kept element sits at some position of `s`. */
  lemma FilterIndex<T>(s: seq<T>, p: T -> bool, j: int)
    requires 0 <= j < |Filter(s, p)|
    ensures exists i :: 0 <= i < |s| && s[i] == Filter(s, p)[j] && p(s[i])
  {
    var r := Filter(s, p);
    assert r[j] in multiset(s);
  }

  /** An element satisfying `p` sits at some position of the filter. */
  lemma FilterHit<T>(s: seq<T>, p: T -> bool, i: int)
    requires 0 <= i < |s| && p(s[i])
    ensures exists j :: 0 <= j < |Filter(s, p)| && Filter(s, p)[j] == s[i]
  {
    var r := Filter(s, p);
    assert s[i] in multiset(r);
  }

  /** A list built from the kept elements one for one has an image of every
      element satisfying `p`, and nothing but such images. */
  lemma FilterImage<T, U>(s: seq<T>, p: T -> bool, f: T -> U, out: seq<U>)
    requires |out| == |Filter(s, p)|
    requires forall j :: 0 <= j < |out| ==> out[j] == f(Filter(s, p)[j])
    ensures forall i :: 0 <= i < |s| && p(s[i]) ==> f(s[i]) in out
    ensures forall j :: 0 <= j < |out| ==> exists i :: 0 <= i < |s| && p(s[i]) && out[j] == f(s[i])
  {
    forall i | 0 <= i < |s| && p(s[i])
      ensures f(s[i]) in out
    {
      FilterHit(s, p, i);
      var j :| 0 <= j < |Filter(s, p)| && Filter(s, p)[j] == s[i];
      assert out[j] == f(s[i]);
    }
    forall j | 0 <= j < |out|
      ensures exists i :: 0 <= i < |s| && p(s[i]) && out[j] == f(s[i])
    {
      FilterIndex(s, p, j);
    }
  }

  /** The contract of `Filter` pins its result down: any subsequence of `s`
      made of elements satisfying `p`, each as often as in `s`, is the filter. */
  lemma {:induction false} FilterIsUnique<T>(s: seq<T>, p: T -> bool, r: seq<T>)
    requires IsSubsequence(r, s)
    requires forall i :: 0 <= i < |r| ==> p(r[i])
    requires forall i :: 0 <= i < |s| && p(s[i]) ==> multiset(r)[s[i]] == multiset(s)[s[i]]
    ensures r == Filter(s, p)
    decreases |s|
  {
    if |s| == 0 {
    } else if |r| == 0 {
      forall i | 0 <= i < |s|
        ensures !p(s[i])
      {
        if p(s[i]) {
          assert false;
        }
      }
      FilterNone(s, p);
    } else {
      var s0 := s[0];
      assert s == [s0] + s[1..];
      assert r == [r[0]] + r[1..];
      if p(s0) {
        if !(r[0] == s0 && IsSubsequence(r[1..], s[1..])) {
          SubsequenceMultiset(r, s[1..]);
          assert false;
        }
        forall j | 0 <= j < |s[1..]| && p(s[1..][j])
          ensures multiset(r[1..])[s[1..][j]] == multiset(s[1..])[s[1..][j]]
        {
          assert s[1..][j] == s[j + 1];
        }
        FilterIsUnique(s[1..], p, r[1..]);
      } else {
        assert r[0] != s0 by { assert p(r[0]); }
        forall j | 0 <= j < |s[1..]| && p(s[1..][j])
          ensures multiset(r)[s[1..][j]] == multiset(s[1..])[s[1..][j]]
        {
          assert s[1..][j] == s[j + 1];
        }
        FilterIsUnique(s[1..], p, r);
      }
    }
  }

  /** Filtering a concatenation filters each part: the kept elements keep
      their relative order. */
  lemma {:induction false} FilterAppend<T>(a: seq<T>, b: seq<T>, p: T -> bool)
    ensures Filter(a + b, p) == Filter(a, p) + Filter(b, p)
    decreases |a|
  {
    if |a| == 0 {
      assert a + b == b;
    } else {
      assert (a + b)[1..] == a[1..] + b;
      FilterAppend(a[1..], b, p);
    }
  }

  /** A filter that rejects nothing is the identity. */
  lemma {:induction false} FilterKeepsAll<T>(s: seq<T>, p: T -> bool)
    requires forall i :: 0 <= i < |s| ==> p(s[i])
    ensures Filter(s, p) == s
    decreases |s|
  {
    if |s| != 0 {
      FilterKeepsAll(s[1..], p);
      assert s == [s[0]] + s[1..];
    }
  }

  /** Applying the same filter twice is the same as applying it once. */
  lemma FilterIdempotent<T>(s: seq<T>, p: T -> bool)
    ensures Filter(Filter(s, p), p) == Filter(s, p)
  {
    var r := Filter(s, p);
    FilterKeepsAll(r, p);
  }

  /** Two filters can be applied in either order. */
  lemma {:induction false} FilterCommutes<T>(s: seq<T>, p: T -> bool, q: T -> bool)
    ensures Filter(Filter(s, p), q) == Filter(Filter(s, q), p)
    decreases |s|
  {
    if |s| != 0 {
      FilterCommutes(s[1..], p, q);
      var tp := Filter(s[1..], p);
      var tq := Filter(s[1..], q);
      if p(s[0]) {
        FilterAppend([s[0]], tp, q);
      }
      if q(s[0]) {
        FilterAppend([s[0]], tq, p);
      }
    }
  }

  /** A filter that keeps nothing yields the empty sequence. */
  lemma {:induction false} FilterNone<T>(s: seq<T>, p: T -> bool)
    requires forall i :: 0 <= i < |s| ==> !p(s[i])
    ensures Filter(s, p) == []
    decreases |s|
  {
    if |s| != 0 {
      FilterNone(s[1..], p);
    }
  }

  /** Whether a partial map gives a value. */
  function Defined<T, U>(f: T -> Option<U>): T -> bool {
    x => f(x).Some?
  }

  /** The values a partial map gives on `s`, in order: one for each element
      it is defined on. */
  function Collect<T, U>(s: seq<T>, f: T -> Option<U>): (r: seq<U>)
    ensures |r| == |Filter(s, Defined(f))|
    ensures forall j :: 0 <= j < |r| ==> Some(r[j]) == f(Filter(s, Defined(f))[j])
    decreases |s|
  {
    if |s| == 0 then []
    else
      var rest := Collect(s[1..], f);
      var r := if f(s[0]).Some? then [f(s[0]).value] + rest else rest;
      CollectStep(s, f, rest, r);
      r
  }

  /** One step of `Collect` keeps its contract. */
  lemma CollectStep<T, U>(s: seq<T>, f: T -> Option<U>, rest: seq<U>, r: seq<U>)
    requires |s| > 0
    requires |rest| == |Filter(s[1..], Defined(f))|
    requires forall j :: 0 <= j < |rest| ==> Some(rest[j]) == f(Filter(s[1..], Defined(f))[j])
    requires r == if f(s[0]).Some? then [f(s[0]).value] + rest else rest
    ensures |r| == |Filter(s, Defined(f))|
    ensures forall j :: 0 <= j < |r| ==> Some(r[j]) == f(Filter(s, Defined(f))[j])
  {
    var tail := Filter(s[1..], Defined(f));
    assert Filter(s, Defined(f)) == if Defined(f)(s[0]) then [s[0]] + tail else tail;
    if f(s[0]).Some? {
      forall j | 0 <= j < |r|
        ensures Some(r[j]) == f(([s[0]] + tail)[j])
      {
        if j > 0 {
          assert r[j] == rest[j - 1];
          assert ([s[0]] + tail)[j] == tail[j - 1];
        }
      }
    }
  }

  /** Every value the map gives on `s` is collected, and nothing else. */
  lemma CollectCovers<T, U>(s: seq<T>, f: T -> Option<U>)
    ensures forall i :: 0 <= i < |s| && f(s[i]).Some? ==> f(s[i]).value in Collect(s, f)
    ensures forall j :: 0 <= j < |Collect(s, f)| ==> exists i :: 0 <= i < |s| && f(s[i]) == Some(Collect(s, f)[j])
  {
    var r := Collect(s, f);
    var kept := Filter(s, Defined(f));
    forall i | 0 <= i < |s| && f(s[i]).Some?
      ensures f(s[i]).value in r
    {
      assert Defined(f)(s[i]);
      FilterHit(s, Defined(f), i);
      var j :| 0 <= j < |kept| && kept[j] == s[i];
      assert Some(r[j]) == f(s[i]);
    }
    forall j | 0 <= j < |r|
      ensures exists i :: 0 <= i < |s| && f(s[i]) == Some(r[j])
    {
      FilterIndex(s, Defined(f), j);
      var i :| 0 <= i < |s| && s[i] == kept[j] && Defined(f)(s[i]);
      assert f(s[i]) == Some(r[j]);
    }
  }

  /** Two lists built pointwise from `xs` and `ys` concatenate to the list
      built pointwise from `xs + ys`. */
  lemma PointwiseAppend<T, U>(xs: seq<T>, ys: seq<T>, f: T -> U, whole: seq<U>, l1: seq<U>, l2: seq<U>)
    requires |whole| == |xs| + |ys| && |l1| == |xs| && |l2| == |ys|
    requires forall j :: 0 <= j < |whole| ==> whole[j] == f((xs + ys)[j])
    requires forall j :: 0 <= j < |l1| ==> l1[j] == f(xs[j])
    requires forall j :: 0 <= j < |l2| ==> l2[j] == f(ys[j])
    ensures whole == l1 + l2
  {
    forall j | 0 <= j < |whole|
      ensures whole[j] == (l1 + l2)[j]
    {
      if j < |xs| {
        assert (xs + ys)[j] == xs[j];
      } else {
        assert (xs + ys)[j] == ys[j - |xs|];
      }
    }
  }

  /** The complement of a predicate. */
  function Not<T>(p: T -> bool): T -> bool {
    x => !p(x)
  }

  /** Every element is either kept by `p` or by its complement. */
  lemma {:induction false} FilterSplitsLength<T>(s: seq<T>, p: T -> bool)
    ensures |Filter(s, p)| + |Filter(s, Not(p))| == |s|
    decreases |s|
  {
    if |s| != 0 {
      FilterSplitsLength(s[1..], p);
    }
  }
}
