/** `Array.prototype.filter`, the one list operation the notes code relies on. */
module Seqs {

  /** The elements of `s` that satisfy `keep`, in their original order. */
  function Filter<T>(s: seq<T>, keep: T -> bool): (r: seq<T>)
    ensures |r| <= |s|
    ensures forall i :: 0 <= i < |r| ==> r[i] in s && keep(r[i])
    ensures forall i :: 0 <= i < |s| && keep(s[i]) ==> s[i] in r
    decreases |s|
  {
    if s == [] then []
    else if keep(s[0]) then [s[0]] + Filter(s[1..], keep)
    else Filter(s[1..], keep)
  }

  /** Filtering keeps each element at most as often as it occurs: it only
      drops, never duplicates. */
  lemma {:induction false} FilterSubMultiset<T>(s: seq<T>, keep: T -> bool)
    ensures multiset(Filter(s, keep)) <= multiset(s)
    decreases |s|
  {
    if s != [] {
      FilterSubMultiset(s[1..], keep);
      assert s == [s[0]] + s[1..];
    }
  }

  /** Filtering a concatenation filters each part and keeps them in order:
      no element moves past another. */
  lemma {:induction false} FilterAppend<T>(a: seq<T>, b: seq<T>, keep: T -> bool)
    ensures Filter(a + b, keep) == Filter(a, keep) + Filter(b, keep)
    decreases |a|
  {
    if a == [] {
      assert a + b == b;
    } else {
      assert (a + b)[1..] == a[1..] + b;
      FilterAppend(a[1..], b, keep);
    }
  }

  /** When every element passes, nothing is dropped. */
  lemma {:induction false} FilterKeepsAll<T>(s: seq<T>, keep: T -> bool)
    requires forall i :: 0 <= i < |s| ==> keep(s[i])
    ensures Filter(s, keep) == s
    decreases |s|
  {
    if s != [] {
      FilterKeepsAll(s[1..], keep);
    }
  }

  /** Filtering twice with the same test is the same as filtering once. */
  lemma FilterIdempotent<T>(s: seq<T>, keep: T -> bool)
    ensures Filter(Filter(s, keep), keep) == Filter(s, keep)
  {
    var r := Filter(s, keep);
    FilterKeepsAll(r, keep);
  }

  /** Exactly one element is dropped when exactly one fails the test. */
  lemma {:induction false} FilterDropsOne<T>(s: seq<T>, keep: T -> bool, k: nat)
    requires k < |s| && !keep(s[k])
    requires forall i :: 0 <= i < |s| && i != k ==> keep(s[i])
    ensures Filter(s, keep) == s[..k] + s[k + 1..]
  {
    assert s == s[..k] + ([s[k]] + s[k + 1..]);
    FilterAppend(s[..k], [s[k]] + s[k + 1..], keep);
    FilterAppend([s[k]], s[k + 1..], keep);
    FilterKeepsAll(s[..k], keep);
    FilterKeepsAll(s[k + 1..], keep);
    assert Filter([s[k]], keep) == [] by {
      assert [s[k]][1..] == [];
    }
  }

  /** Removing the element at `k` before filtering changes the result only
      if that element passes, and then by that one element. */
  lemma FilterWithout<T>(s: seq<T>, k: nat, keep: T -> bool)
    requires k < |s|
    ensures !keep(s[k]) ==> Filter(s[..k] + s[k + 1..], keep) == Filter(s, keep)
    ensures keep(s[k]) ==> |Filter(s[..k] + s[k + 1..], keep)| + 1 == |Filter(s, keep)|
  {
    assert s == s[..k] + ([s[k]] + s[k + 1..]);
    FilterAppend(s[..k], [s[k]] + s[k + 1..], keep);
    FilterAppend([s[k]], s[k + 1..], keep);
    FilterAppend(s[..k], s[k + 1..], keep);
    assert [s[k]][1..] == [];
  }

  /** Two filters can be applied in either order. */
  lemma {:induction false} FilterCommute<T>(s: seq<T>, a: T -> bool, b: T -> bool)
    ensures Filter(Filter(s, a), b) == Filter(Filter(s, b), a)
    decreases |s|
  {
    if s != [] {
      FilterCommute(s[1..], a, b);
      if a(s[0]) {
        assert ([s[0]] + Filter(s[1..], a))[1..] == Filter(s[1..], a);
      }
      if b(s[0]) {
        assert ([s[0]] + Filter(s[1..], b))[1..] == Filter(s[1..], b);
      }
    }
  }
}
