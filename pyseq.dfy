/**
 The two list primitives the recommender leans on: locating the first
 position that holds a value (a pandas boolean mask followed by `.index[0]`,
 or a plain `in` test), and Python's slice `s[lo:hi]`, whose bounds may be
 negative or past the end.
 */
module PySeq {

  datatype Option<+T> = None | Some(value: T)

  /** The first position of `x` in `s`, or None when `x` does not occur. */
  function IndexOf<T(==)>(s: seq<T>, x: T): (r: Option<nat>)
    ensures r.None? <==> x !in s
    ensures r.Some? ==> r.value < |s| && s[r.value] == x
    ensures r.Some? ==> forall j :: 0 <= j < r.value ==> s[j] != x
  {
    if s == [] then None
    else if s[0] == x then Some(0)
    else
      match IndexOf(s[1..], x)
      case None => None
      case Some(i) => Some(i + 1)
  }

  /** Python's reading of a slice bound against a sequence of length n:
      a negative bound counts from the end, and the result is clamped to 0..n. */
  function SliceBound(b: int, n: nat): (r: nat)
    ensures r <= n
    ensures 0 <= b <= n ==> r == b
    ensures b > n ==> r == n
    ensures b < 0 && b + n >= 0 ==> r == b + n
    ensures b + n < 0 ==> r == 0
  {
    if b < 0 then (if b + n < 0 then 0 else b + n)
    else if b > n then n
    else b
  }

  /** Python's `s[lo:hi]`: empty when the clamped bounds cross. */
  function Slice<T>(s: seq<T>, lo: int, hi: int): seq<T>
  {
    var a := SliceBound(lo, |s|);
    var b := SliceBound(hi, |s|);
    if a <= b then s[a..b] else []
  }

  function Min(a: int, b: int): int
  {
    if a <= b then a else b
  }

  /** With a bound of 1 and a non-negative end, the slice drops the head of
      `s` and keeps at most `n` of what follows. */
  lemma SliceFromOne<T>(s: seq<T>, n: int)
    requires n >= 0
    ensures s == [] ==> Slice(s, 1, n + 1) == []
    ensures s != [] ==> Slice(s, 1, n + 1) == s[1..Min(n + 1, |s|)]
  {
  }

  /** A value found at two positions occurs at least twice in the multiset. */
  lemma TwoOccurrences<T>(s: seq<T>, i: nat, j: nat)
    requires i < j < |s| && s[i] == s[j]
    ensures multiset(s)[s[i]] >= 2
  {
    assert s == s[..j] + [s[j]] + s[j + 1..];
    assert s[..j][i] == s[i];
  }

  /** A value found at no two positions occurs at most once in the multiset. */
  lemma {:induction false} SingleOccurrence<T>(s: seq<T>, x: T)
    requires forall i, j :: 0 <= i < j < |s| && s[i] == x ==> s[j] != x
    ensures multiset(s)[x] <= 1
  {
    if s != [] {
      SingleOccurrence(s[1..], x);
      assert s == [s[0]] + s[1..];
      if s[0] == x {
        assert x !in s[1..];
      }
    }
  }
}
