/** Generic sequence operations the notes logic is built from: the
    order-preserving filter used by `Array.prototype.filter`, and the
    first-appearance de-duplication that iterating a `Set` built by
    repeated `add` produces. */
module Seqs {

  /** `a` can be obtained from `b` by deleting elements: the relative order
      of what remains is the order in `b`. */
  ghost predicate IsSubsequence<T>(a: seq<T>, b: seq<T>)
  {
    |a| == 0 ||
    (|b| > 0 &&
      ((a[0] == b[0] && IsSubsequence(a[1..], b[1..])) || IsSubsequence(a, b[1..])))
  }

  /** Every sequence is a subsequence of itself. */
  lemma {:induction false} SubsequenceRefl<T>(s: seq<T>)
    ensures IsSubsequence(s, s)
  {
    if |s| > 0 {
      SubsequenceRefl(s[1..]);
    }
  }

  /** `r` is what keeping exactly the elements of `s` that pass `p` leaves:
      a subsequence of `s` whose elements all pass `p`, in which every
      passing value of `s` occurs as often as it does in `s`. */
  ghost predicate SelectsExactly<T>(r: seq<T>, s: seq<T>, p: T -> bool)
  {
    && IsSubsequence(r, s)
    && (forall i :: 0 <= i < |r| ==> p(r[i]))
    && multiset(r) <= multiset(s)
    && (forall x | x in s :: p(x) ==> multiset(r)[x] == multiset(s)[x])
  }

  /** `s.filter(p)`: keeps, in order, the elements satisfying `p`. */
  function Filter<T>(s: seq<T>, p: T -> bool): (r: seq<T>)
    ensures |r| <= |s|
  {
    if |s| == 0 then []
    else if p(s[0]) then [s[0]] + Filter(s[1..], p)
    else Filter(s[1..], p)
  }

  /** `Filter` keeps exactly the passing elements, in order, each as often
      as it occurs. */
  lemma {:induction false} FilterSelectsExactly<T>(s: seq<T>, p: T -> bool)
    ensures SelectsExactly(Filter(s, p), s, p)
  {
    if |s| > 0 {
      var rest := Filter(s[1..], p);
      FilterSelectsExactly(s[1..], p);
      assert s == [s[0]] + s[1..];
      if p(s[0]) {
        var r := [s[0]] + rest;
        assert r[1..] == rest;
      }
    }
  }

  /** A subsequence holds no value more often than the sequence it was
      taken from. */
  lemma {:induction false} SubsequenceMultiset<T>(a: seq<T>, b: seq<T>)
    requires IsSubsequence(a, b)
    ensures multiset(a) <= multiset(b)
  {
    if |a| > 0 {
      assert b == [b[0]] + b[1..];
      if a[0] == b[0] && IsSubsequence(a[1..], b[1..]) {
        SubsequenceMultiset(a[1..], b[1..]);
        assert a == [a[0]] + a[1..];
      } else {
        SubsequenceMultiset(a, b[1..]);
      }
    }
  }

  /** A first element that fails `p` is not selected: the selection is a
      selection from the rest. */
  lemma SelectsExactlySkip<T>(r: seq<T>, s: seq<T>, p: T -> bool)
    requires |s| > 0 && !p(s[0]) && SelectsExactly(r, s, p)
    ensures SelectsExactly(r, s[1..], p)
  {
    var s' := s[1..];
    assert s == [s[0]] + s';
    assert multiset(s) == multiset{s[0]} + multiset(s');
    if |r| > 0 {
      assert r[0] != s[0];
    }
    SubsequenceMultiset(r, s');
  }

  /** A first element that passes `p` is selected first: the rest of the
      selection is a selection from the rest. */
  lemma SelectsExactlyTake<T>(r: seq<T>, s: seq<T>, p: T -> bool)
    requires |s| > 0 && p(s[0]) && SelectsExactly(r, s, p)
    ensures |r| > 0 && r[0] == s[0] && SelectsExactly(r[1..], s[1..], p)
  {
    var x := s[0];
    var s' := s[1..];
    assert s == [x] + s';
    assert multiset(s) == multiset{x} + multiset(s');
    assert multiset(r)[x] > 0;
    if !(r[0] == x && IsSubsequence(r[1..], s')) {
      SubsequenceMultiset(r, s');
      assert false;
    }
    assert r == [x] + r[1..];
    assert multiset(r) == multiset{x} + multiset(r[1..]);
  }

  /** `SelectsExactly` pins the result down: the only sequence it admits
      is `Filter(s, p)`. */
  lemma {:induction false} FilterUnique<T>(r: seq<T>, s: seq<T>, p: T -> bool)
    requires SelectsExactly(r, s, p)
    ensures r == Filter(s, p)
  {
    if |s| == 0 {
      SubsequenceMultiset(r, s);
    } else if p(s[0]) {
      SelectsExactlyTake(r, s, p);
      FilterUnique(r[1..], s[1..], p);
      assert r == [s[0]] + r[1..];
    } else {
      SelectsExactlySkip(r, s, p);
      FilterUnique(r, s[1..], p);
    }
  }

  /** Membership in a filtered sequence: present in the source and passing. */
  lemma {:induction false} FilterMembership<T>(s: seq<T>, p: T -> bool, x: T)
    ensures x in Filter(s, p) <==> x in s && p(x)
  {
    if |s| > 0 {
      FilterMembership(s[1..], p, x);
      assert s == [s[0]] + s[1..];
    }
  }

  /** When every element passes, filtering changes nothing. */
  lemma {:induction false} FilterKeepsAll<T>(s: seq<T>, p: T -> bool)
    requires forall i :: 0 <= i < |s| ==> p(s[i])
    ensures Filter(s, p) == s
  {
    if |s| > 0 {
      FilterKeepsAll(s[1..], p);
      assert s == [s[0]] + s[1..];
    }
  }

  /** Filtering twice by the same predicate is filtering once. */
  lemma FilterIdempotent<T>(s: seq<T>, p: T -> bool)
    ensures Filter(Filter(s, p), p) == Filter(s, p)
  {
    FilterSelectsExactly(s, p);
    FilterKeepsAll(Filter(s, p), p);
  }

  /** Filtering a one-element sequence. */
  lemma FilterSingleton<T>(x: T, p: T -> bool)
    ensures Filter([x], p) == if p(x) then [x] else []
  {
    assert [x][1..] == [];
  }

  /** Filtering distributes over concatenation, which is what "keeps the
      original relative order" amounts to. */
  lemma {:induction false} FilterConcat<T>(a: seq<T>, b: seq<T>, p: T -> bool)
    ensures Filter(a + b, p) == Filter(a, p) + Filter(b, p)
  {
    if |a| > 0 {
      assert (a + b)[1..] == a[1..] + b;
      FilterConcat(a[1..], b, p);
    } else {
      assert a + b == b;
    }
  }

  /** No value occurs twice. */
  predicate NoDuplicates<T(==)>(s: seq<T>)
  {
    forall i, j :: 0 <= i < j < |s| ==> s[i] != s[j]
  }

  /** Filtering keeps a sequence free of duplicates. */
  lemma {:induction false} FilterNoDuplicates<T>(s: seq<T>, p: T -> bool)
    ensures NoDuplicates(s) ==> NoDuplicates(Filter(s, p))
  {
    if |s| > 0 && NoDuplicates(s) {
      assert NoDuplicates(s[1..]);
      FilterNoDuplicates(s[1..], p);
      FilterMembership(s[1..], p, s[0]);
    }
  }

  /** The index of the first occurrence of `x` in `s`. */
  function FirstIndex<T(==)>(s: seq<T>, x: T): (k: nat)
    requires x in s
    ensures k < |s| && s[k] == x
    ensures forall j :: 0 <= j < k ==> s[j] != x
  {
    if s[0] == x then 0
    else
      var k' := FirstIndex(s[1..], x);
      assert forall j :: 0 < j <= k' ==> s[j] == s[1..][j - 1];
      k' + 1
  }

  /** Any index holding `x` with no earlier `x` is the first index. */
  lemma FirstIndexUnique<T>(s: seq<T>, x: T, k: nat)
    requires k < |s| && s[k] == x
    requires forall j :: 0 <= j < k ==> s[j] != x
    ensures FirstIndex(s, x) == k
  {
  }

  /** A first occurrence inside a prefix is the first occurrence overall. */
  lemma FirstIndexPrefix<T>(s: seq<T>, n: nat, x: T)
    requires n <= |s| && x in s[..n]
    ensures FirstIndex(s, x) == FirstIndex(s[..n], x)
  {
    var k := FirstIndex(s[..n], x);
    assert s[..n][..k] == s[..k];
    FirstIndexUnique(s, x, k);
  }

  /** The distinct values of `s` in order of first appearance: what
      `Array.from` yields for a `Set` filled by `add`-ing the values of `s`
      one after another (an `add` of a value already present changes
      nothing). */
  function Dedup<T(==)>(s: seq<T>): (r: seq<T>)
    ensures forall i :: 0 <= i < |r| ==> r[i] in s
    ensures forall i :: 0 <= i < |s| ==> s[i] in r
  {
    if |s| == 0 then []
    else
      var init := s[..|s| - 1];
      var last := s[|s| - 1];
      var d := Dedup(init);
      assert forall i :: 0 <= i < |init| ==> s[i] == init[i];
      if last in d then d else d + [last]
  }

  /** `Dedup` lists each value once, and orders the values by where they
      first occur in `s`. */
  lemma {:induction false} DedupDistinctInOrder<T>(s: seq<T>)
    ensures NoDuplicates(Dedup(s))
    ensures forall i, j :: 0 <= i < j < |Dedup(s)| ==>
      FirstIndex(s, Dedup(s)[i]) < FirstIndex(s, Dedup(s)[j])
  {
    if |s| > 0 {
      var init := s[..|s| - 1];
      var last := s[|s| - 1];
      var d := Dedup(init);
      DedupDistinctInOrder(init);
      assert s == init + [last];
      forall x | x in d
        ensures FirstIndex(s, x) == FirstIndex(init, x)
      {
        FirstIndexPrefix(s, |s| - 1, x);
      }
      if last !in d {
        FirstIndexUnique(s, last, |s| - 1);
        assert Dedup(s) == d + [last];
      }
    }
  }

  /** A sequence without duplicates is its own de-duplication. */
  lemma {:induction false} DedupOfDistinct<T>(s: seq<T>)
    requires NoDuplicates(s)
    ensures Dedup(s) == s
  {
    if |s| > 0 {
      var init := s[..|s| - 1];
      var last := s[|s| - 1];
      assert forall k | 0 <= k < |init| :: init[k] == s[k];
      assert NoDuplicates(init);
      assert last !in init;
      DedupOfDistinct(init);
      assert Dedup(s) == init + [last];
      assert s == init + [last];
    }
  }
}
