/** Sequence helpers shared by the pipeline and the dashboard pages: an optional
    value for nullable table cells, and the order-preserving filter that a
    dataframe boolean mask performs. */
module Collections {

  /** A value that may be missing (a NaN / None cell). */
  datatype Option<+T> = None | Some(value: T)

  /** `idx` lists, in strictly increasing order, positions of `s` whose
      elements spell out `r`. */
  ghost predicate Embeds<T>(idx: seq<nat>, r: seq<T>, s: seq<T>)
  {
    && |idx| == |r|
    && (forall i :: 0 <= i < |idx| ==> idx[i] < |s| && r[i] == s[idx[i]])
    && (forall i, j :: 0 <= i < j < |idx| ==> idx[i] < idx[j])
  }

  /** `r` is an order-preserving subsequence of `s`. */
  ghost predicate IsSubsequence<T>(r: seq<T>, s: seq<T>)
  {
    exists idx :: Embeds(idx, r, s)
  }

  /** The rows of `s` for which the mask `p` holds, in their original order. */
  function Filter<T>(s: seq<T>, p: T -> bool): (r: seq<T>)
    ensures |r| <= |s|
    ensures forall x :: x in r ==> x in s && p(x)
    ensures forall i :: 0 <= i < |s| && p(s[i]) ==> s[i] in r
    ensures (forall i :: 0 <= i < |s| ==> p(s[i])) ==> r == s
  {
    if s == [] then []
    else (if p(s[0]) then [s[0]] else []) + Filter(s[1..], p)
  }

  /** Masking never reorders or duplicates rows. */
  lemma {:induction false} FilterIsSubsequence<T>(s: seq<T>, p: T -> bool)
    ensures IsSubsequence(Filter(s, p), s)
  {
    if s == [] {
      assert Embeds([], Filter(s, p), s);
    } else {
      FilterIsSubsequence(s[1..], p);
      var tail := Filter(s[1..], p);
      assert [s[0]] + s[1..] == s;
      if p(s[0]) {
        assert Filter(s, p) == [s[0]] + tail;
        PrependSubsequence(s[0], tail, [s[0]], s[1..]);
      } else {
        assert Filter(s, p) == tail;
        SkipHead(s[0], tail, s[1..]);
      }
    }
  }

  /** An element put in front does not disturb a subsequence. */
  lemma SkipHead<T>(x: T, r: seq<T>, s: seq<T>)
    requires IsSubsequence(r, s)
    ensures IsSubsequence(r, [x] + s)
  {
    var idx :| Embeds(idx, r, s);
    var shifted := seq(|idx|, i requires 0 <= i < |idx| => idx[i] + 1);
    forall i | 0 <= i < |shifted| ensures shifted[i] < |[x] + s| && r[i] == ([x] + s)[shifted[i]] {
      assert ([x] + s)[idx[i] + 1] == s[idx[i]];
    }
    assert Embeds(shifted, r, [x] + s);
  }

  /** Masking a concatenation masks each part. */
  lemma {:induction false} FilterAppend<T>(a: seq<T>, b: seq<T>, p: T -> bool)
    ensures Filter(a + b, p) == Filter(a, p) + Filter(b, p)
  {
    if a == [] {
      assert a + b == b;
    } else {
      assert (a + b)[1..] == a[1..] + b;
      FilterAppend(a[1..], b, p);
    }
  }

  /** A sequence whose first element is `x` followed by one containing `r`
      contains `x` followed by `r`. */
  lemma PrependSubsequence<T>(x: T, r: seq<T>, a: seq<T>, b: seq<T>)
    requires |a| >= 1 && a[0] == x && IsSubsequence(r, b)
    ensures IsSubsequence([x] + r, a + b)
  {
    var idx :| Embeds(idx, r, b);
    var full := [0] + seq(|idx|, i requires 0 <= i < |idx| => idx[i] + |a|);
    forall i | 0 <= i < |full| ensures full[i] < |a + b| && ([x] + r)[i] == (a + b)[full[i]] {
      if i > 0 {
        assert full[i] == idx[i - 1] + |a|;
      }
    }
    assert Embeds(full, [x] + r, a + b);
  }

  /** A sequence is its first element followed by the rest. */
  lemma SeqCons<T>(whole: seq<T>, x: T, tail: seq<T>)
    requires |whole| == |tail| + 1 && whole[0] == x
    requires forall i :: 0 <= i < |tail| ==> whole[i + 1] == tail[i]
    ensures whole == [x] + tail
  {
    assert forall i :: 0 <= i < |whole| ==> whole[i] == ([x] + tail)[i] by {
      forall i | 0 < i < |whole| ensures whole[i] == ([x] + tail)[i] {
        assert whole[(i - 1) + 1] == tail[i - 1];
      }
    }
  }

  /** Two successive masks select the same rows as the single conjoined mask. */
  lemma {:induction false} FilterFilter<T>(s: seq<T>, p: T -> bool, q: T -> bool, pq: T -> bool)
    requires forall x :: pq(x) == (p(x) && q(x))
    ensures Filter(Filter(s, p), q) == Filter(s, pq)
  {
    if s != [] {
      FilterFilter(s[1..], p, q, pq);
      var head := if p(s[0]) then [s[0]] else [];
      FilterAppend(head, Filter(s[1..], p), q);
    }
  }

  /** Masks that agree on every row select the same rows. */
  lemma {:induction false} FilterCongruent<T>(s: seq<T>, p: T -> bool, q: T -> bool)
    requires forall x :: p(x) == q(x)
    ensures Filter(s, p) == Filter(s, q)
  {
    if s != [] {
      FilterCongruent(s[1..], p, q);
    }
  }

  /** A mask that holds for no row selects nothing. */
  lemma {:induction false} FilterNone<T>(s: seq<T>, p: T -> bool)
    requires forall x :: x in s ==> !p(x)
    ensures Filter(s, p) == []
  {
    if s != [] {
      FilterNone(s[1..], p);
    }
  }

  /** No element occurs twice. */
  predicate Distinct<T(==)>(s: seq<T>)
  {
    forall i, j :: 0 <= i < j < |s| ==> s[i] != s[j]
  }

  /** A sequence in which some value occurs at two positions holds that value
      at least twice. */
  lemma RepeatCounted<T>(s: seq<T>, i: int, j: int)
    requires 0 <= i < j < |s| && s[i] == s[j]
    ensures multiset(s)[s[i]] >= 2
  {
    assert s == s[..j] + [s[j]] + s[j + 1..];
    assert s[i] in s[..j];
    assert multiset(s) == multiset(s[..j]) + multiset{s[j]} + multiset(s[j + 1..]);
  }

  /** A duplicate-free sequence holds every value at most once. */
  lemma {:induction false} DistinctCounted<T>(s: seq<T>, x: T)
    requires Distinct(s)
    ensures multiset(s)[x] <= 1
  {
    if s != [] {
      var t := s[..|s| - 1];
      assert s == t + [s[|s| - 1]];
      assert Distinct(t);
      DistinctCounted(t, x);
      if x == s[|s| - 1] {
        assert x !in t;
      }
    }
  }

  /** Rearranging a duplicate-free sequence keeps it duplicate-free. */
  lemma PermutationDistinct<T>(s: seq<T>, r: seq<T>)
    requires Distinct(s) && multiset(r) == multiset(s)
    ensures Distinct(r)
  {
    forall i, j | 0 <= i < j < |r| ensures r[i] != r[j] {
      if r[i] == r[j] {
        RepeatCounted(r, i, j);
        DistinctCounted(s, r[i]);
        assert false;
      }
    }
  }
}
