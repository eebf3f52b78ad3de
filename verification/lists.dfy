/**
 * The two Python list operations the pipeline is built from: the filtering
 * comprehension `[x for x in s if keep(x)]` and the prefix slice `s[:k]`.
 */
module Lists {

  /** `[x for x in s if keep(x)]`. */
  function Filter<T>(s: seq<T>, keep: T -> bool): (r: seq<T>)
    ensures |r| <= |s|
  {
    if s == [] then []
    else (if keep(s[0]) then [s[0]] else []) + Filter(s[1..], keep)
  }

  /** Filtering keeps every element `keep` accepts, exactly as often as it
      occurs, and nothing else. */
  lemma {:induction false} FilterCounts<T(!new)>(s: seq<T>, keep: T -> bool)
    ensures forall x :: x in Filter(s, keep) <==> x in s && keep(x)
    ensures forall x :: multiset(Filter(s, keep))[x] == if keep(x) then multiset(s)[x] else 0
  {
    if s != [] {
      FilterCounts(s[1..], keep);
      assert s == [s[0]] + s[1..];
    }
  }

  /** Filtering keeps the input order: it distributes over concatenation. */
  lemma {:induction false} FilterDistributes<T(!new)>(a: seq<T>, b: seq<T>, keep: T -> bool)
    ensures Filter(a + b, keep) == Filter(a, keep) + Filter(b, keep)
  {
    if a == [] {
      assert a + b == b;
    } else {
      var head := if keep(a[0]) then [a[0]] else [];
      var fa, fb := Filter(a[1..], keep), Filter(b, keep);
      assert (a + b)[0] == a[0];
      assert (a + b)[1..] == a[1..] + b;
      FilterDistributes(a[1..], b, keep);
      assert Filter(a + b, keep) == head + (fa + fb);
      assert Filter(a, keep) == head + fa;
      assert head + (fa + fb) == (head + fa) + fb;
    }
  }

  /** Filtering a one-element list. */
  lemma {:induction false} FilterSingleton<T(!new)>(x: T, keep: T -> bool)
    ensures Filter([x], keep) == if keep(x) then [x] else []
  {
    assert [x][1..] == [];
  }

  /** Length of Python's `s[:k]` for a list of length `n`: `min(n, k)` when
      `k >= 0`, otherwise `n + k` floored at 0. */
  function SliceLength(n: nat, k: int): nat {
    if k >= 0 then (if k <= n then k else n)
    else if n + k >= 0 then n + k
    else 0
  }

  /** Python's `s[:k]`, a negative `k` counting from the end. */
  function Take<T>(s: seq<T>, k: int): (r: seq<T>)
    ensures |r| == SliceLength(|s|, k)
    ensures r == s[..|r|]
  {
    if k >= 0 then (if k < |s| then s[..k] else s)
    else if -k < |s| then s[..|s| + k]
    else []
  }

  /** An element of a non-empty list is its head or an element of its tail. */
  lemma {:induction false} MemberOfNonEmpty<T>(s: seq<T>, x: T)
    requires s != []
    ensures x in s <==> x == s[0] || x in s[1..]
  {
    assert s == [s[0]] + s[1..];
  }

  /** A list holding no element more often than another is no longer. */
  lemma {:induction false} SubmultisetNoLonger<T>(a: seq<T>, b: seq<T>)
    requires multiset(a) <= multiset(b)
    ensures |a| <= |b|
  {
    var extra := multiset(b) - multiset(a);
    assert multiset(a) + extra == multiset(b);
    assert |multiset(b)| == |multiset(a)| + |extra|;
  }

  /** A prefix holds no element more often than the whole list does. */
  lemma {:induction false} PrefixSubmultiset<T>(s: seq<T>, k: nat)
    requires k <= |s|
    ensures multiset(s[..k]) <= multiset(s)
  {
    assert s == s[..k] + s[k..];
  }
}
