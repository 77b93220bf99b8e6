/** Small sequence vocabulary: index lists, as the suppression loop keeps them. */
module SeqUtil {

  /** Strictly increasing: the shape of an index list that selects a subsequence. */
  predicate StrictlyIncreasing(s: seq<nat>)
  {
    forall a, b :: 0 <= a < b < |s| ==> s[a] < s[b]
  }

  /** Position i of s exists and holds v. */
  predicate At<T(==)>(s: seq<T>, i: int, v: T)
  {
    0 <= i < |s| && s[i] == v
  }

  /** The index list `0, 1, ..., n - 1`. */
  function Range(n: nat): (r: seq<nat>)
    ensures |r| == n
    ensures forall k :: 0 <= k < n ==> r[k] == k
    ensures StrictlyIncreasing(r)
  {
    seq(n, k requires 0 <= k => k)
  }

  /** Concatenation of a list of parts, in order: the shape of the output of
      a loop that appends one part per iteration. */
  function Flatten<T>(parts: seq<seq<T>>): seq<T>
  {
    if |parts| == 0 then [] else Flatten(parts[..|parts| - 1]) + parts[|parts| - 1]
  }

  /** Appending one more part appends its elements. */
  lemma FlattenSnoc<T>(parts: seq<seq<T>>, n: nat)
    requires n < |parts|
    ensures Flatten(parts[..n + 1]) == Flatten(parts[..n]) + parts[n]
  {
    assert parts[..n + 1][..n] == parts[..n];
  }

  /** Part i starts right after the elements of parts 0 .. i - 1. */
  lemma {:induction false} FlattenIndex<T>(parts: seq<seq<T>>, i: nat, k: nat)
    requires i < |parts| && k < |parts[i]|
    ensures |Flatten(parts[..i])| + k < |Flatten(parts)|
    ensures Flatten(parts)[|Flatten(parts[..i])| + k] == parts[i][k]
  {
    var n := |parts| - 1;
    var init := parts[..n];
    assert Flatten(parts) == Flatten(init) + parts[n];
    if i < n {
      FlattenIndex(init, i, k);
      assert init[..i] == parts[..i];
      assert init[i] == parts[i];
    } else {
      assert parts[..i] == init;
    }
  }

  /** When every part has length m, the flattened list has |parts| * m
      elements and part i starts at i * m. */
  lemma {:induction false} FlattenUniform<T>(parts: seq<seq<T>>, m: nat, i: nat)
    requires forall j :: 0 <= j < |parts| ==> |parts[j]| == m
    requires i <= |parts|
    ensures |Flatten(parts[..i])| == i * m
  {
    if i > 0 {
      FlattenUniform(parts, m, i - 1);
      FlattenSnoc(parts, i - 1);
    }
  }

  /** Every element of the flattened list comes from one of the parts. */
  lemma {:induction false} FlattenMember<T>(parts: seq<seq<T>>, a: T)
    requires a in Flatten(parts)
    ensures exists i :: 0 <= i < |parts| && a in parts[i]
  {
    var n := |parts| - 1;
    assert Flatten(parts) == Flatten(parts[..n]) + parts[n];
    if a !in parts[n] {
      FlattenMember(parts[..n], a);
      var i :| 0 <= i < n && a in parts[..n][i];
      assert parts[..n][i] == parts[i];
    }
  }

  /** `FlattenIndex` with the position named. */
  lemma FlattenAt<T>(parts: seq<seq<T>>, i: nat, k: nat, j: int)
    requires i < |parts| && k < |parts[i]|
    requires j == |Flatten(parts[..i])| + k
    ensures 0 <= j < |Flatten(parts)| && Flatten(parts)[j] == parts[i][k]
  {
    FlattenIndex(parts, i, k);
  }

  /** The items among the first n whose flag is set, in their original order:
      the output of a loop that appends an item only when its flag holds. */
  function Select<T>(items: seq<T>, keep: seq<bool>, n: nat): seq<T>
    requires n <= |items| && n <= |keep|
  {
    if n == 0 then []
    else Select(items, keep, n - 1) + (if keep[n - 1] then [items[n - 1]] else [])
  }

  /** The positions among the first n whose flag is set, ascending. */
  function SelectedIndices(keep: seq<bool>, n: nat): (r: seq<nat>)
    requires n <= |keep|
    ensures StrictlyIncreasing(r)
    ensures forall k :: 0 <= k < |r| ==> r[k] < n && keep[r[k]]
    ensures forall i :: 0 <= i < n && keep[i] ==> i in r
  {
    if n == 0 then []
    else
      var prev := SelectedIndices(keep, n - 1);
      if keep[n - 1] then prev + [n - 1] else prev
  }

  /** Selecting keeps exactly the flagged items: the k-th selected item is
      the item at the k-th flagged position. */
  lemma {:induction false} SelectIndexed<T>(items: seq<T>, keep: seq<bool>, n: nat)
    requires n <= |items| && n <= |keep|
    ensures |Select(items, keep, n)| == |SelectedIndices(keep, n)|
    ensures forall k :: 0 <= k < |Select(items, keep, n)| ==>
              Select(items, keep, n)[k] == items[SelectedIndices(keep, n)[k]]
  {
    if n > 0 {
      SelectIndexed(items, keep, n - 1);
    }
  }
}
