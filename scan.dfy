/** Linear scans over the rows of a sheet, for any test on a row: the first
    row that passes it, the sheet without that row, and the sheet without
    every row that passes it. */
module Scan {

  datatype Option<+T> = None | Some(value: T)

  /** The index of the first element that satisfies `p`, if any. */
  function FirstWhere<T>(xs: seq<T>, p: T -> bool): (k: Option<nat>)
    ensures k.None? <==> forall i :: 0 <= i < |xs| ==> !p(xs[i])
    ensures k.Some? ==> k.value < |xs| && p(xs[k.value])
    ensures k.Some? ==> forall j :: 0 <= j < k.value ==> !p(xs[j])
  {
    if xs == [] then None
    else if p(xs[0]) then Some(0)
    else match FirstWhere(xs[1..], p)
      case None => None
      case Some(k) => Some(k + 1)
  }

  /** `xs` without its first element that satisfies `p`; the others keep
      their order. */
  function RemoveFirstWhere<T>(xs: seq<T>, p: T -> bool): (r: seq<T>)
    ensures FirstWhere(xs, p).None? ==> r == xs
    ensures FirstWhere(xs, p).Some? ==> |r| == |xs| - 1
    ensures FirstWhere(xs, p).Some? ==> forall i :: 0 <= i < FirstWhere(xs, p).value ==> r[i] == xs[i]
    ensures FirstWhere(xs, p).Some? ==> forall i :: FirstWhere(xs, p).value <= i < |r| ==> r[i] == xs[i + 1]
  {
    match FirstWhere(xs, p)
    case None => xs
    case Some(k) => xs[..k] + xs[k + 1..]
  }

  /** The elements of `xs` that do not satisfy `p`, in order. */
  function Without<T>(xs: seq<T>, p: T -> bool): (r: seq<T>)
    ensures |r| <= |xs|
    ensures forall i :: 0 <= i < |r| ==> !p(r[i])
  {
    if xs == [] then []
    else if p(xs[0]) then Without(xs[1..], p)
    else [xs[0]] + Without(xs[1..], p)
  }

  /** `Without` keeps exactly the elements that fail `p`. */
  lemma {:induction false} WithoutMembers<T>(xs: seq<T>, p: T -> bool)
    ensures forall i :: 0 <= i < |Without(xs, p)| ==> Without(xs, p)[i] in xs
    ensures forall i :: 0 <= i < |xs| && !p(xs[i]) ==> xs[i] in Without(xs, p)
  {
    if xs != [] {
      var tail := xs[1..];
      WithoutMembers(tail, p);
      assert forall i :: 0 < i < |xs| ==> xs[i] == tail[i - 1];
    }
  }

  /** With no element satisfying `p`, nothing is left out. */
  lemma {:induction false} WithoutNone<T>(xs: seq<T>, p: T -> bool)
    requires forall i :: 0 <= i < |xs| ==> !p(xs[i])
    ensures Without(xs, p) == xs
  {
    if xs != [] {
      WithoutNone(xs[1..], p);
    }
  }

  /** Appending an element that satisfies `p` leaves `Without` unchanged. */
  lemma {:induction false} WithoutAppend<T>(xs: seq<T>, x: T, p: T -> bool)
    requires p(x)
    ensures Without(xs + [x], p) == Without(xs, p)
  {
    if xs == [] {
      assert [x][1..] == [];
    } else {
      assert (xs + [x])[1..] == xs[1..] + [x];
      WithoutAppend(xs[1..], x, p);
    }
  }

  /** `Without` keeps every element that fails `p` as often as it occurs,
      and no other. */
  lemma {:induction false} WithoutMultiset<T>(xs: seq<T>, p: T -> bool)
    ensures forall x :: multiset(Without(xs, p))[x] == if p(x) then 0 else multiset(xs)[x]
  {
    if xs != [] {
      WithoutMultiset(xs[1..], p);
      assert xs == [xs[0]] + xs[1..];
    }
  }

  /** When only the element at `k` satisfies `p`, filtering removes just
      that element. */
  lemma {:induction false} WithoutOnly<T>(xs: seq<T>, k: nat, p: T -> bool)
    requires k < |xs| && p(xs[k])
    requires forall i :: 0 <= i < |xs| && i != k ==> !p(xs[i])
    ensures Without(xs, p) == xs[..k] + xs[k + 1..]
  {
    var tail := xs[1..];
    assert forall i :: 0 <= i < |tail| ==> tail[i] == xs[i + 1];
    if k == 0 {
      WithoutNone(tail, p);
      assert xs[..0] + xs[1..] == tail;
    } else {
      WithoutOnly(tail, k - 1, p);
      assert xs[..k] == [xs[0]] + tail[..k - 1];
      assert xs[k + 1..] == tail[k..];
    }
  }

  /** When at most one element satisfies `p`, removing the first one removes
      them all. */
  lemma RemoveFirstAtMostOne<T>(xs: seq<T>, p: T -> bool)
    requires forall i, j :: 0 <= i < j < |xs| && p(xs[i]) ==> !p(xs[j])
    ensures RemoveFirstWhere(xs, p) == Without(xs, p)
  {
    match FirstWhere(xs, p)
    case None =>
      WithoutNone(xs, p);
    case Some(k) =>
      WithoutOnly(xs, k, p);
  }

  /** Removing the first element that satisfies `p` removes exactly that
      element. */
  lemma RemoveFirstMultiset<T>(xs: seq<T>, p: T -> bool)
    ensures FirstWhere(xs, p).Some? ==>
              multiset(RemoveFirstWhere(xs, p)) + multiset{xs[FirstWhere(xs, p).value]} == multiset(xs)
  {
    if FirstWhere(xs, p).Some? {
      var k := FirstWhere(xs, p).value;
      assert xs == xs[..k] + [xs[k]] + xs[k + 1..];
    }
  }

  /** No two elements of `xs` have the same key. */
  ghost predicate Distinct<T, K>(xs: seq<T>, key: T -> K) {
    forall i, j :: 0 <= i < j < |xs| ==> key(xs[i]) != key(xs[j])
  }

  /** Removing the element at index `k` keeps the keys distinct. */
  lemma RemoveAtKeepsDistinct<T, K>(xs: seq<T>, k: nat, key: T -> K)
    requires k < |xs| && Distinct(xs, key)
    ensures Distinct(xs[..k] + xs[k + 1..], key)
  {
    var r := xs[..k] + xs[k + 1..];
    assert forall i :: 0 <= i < k ==> r[i] == xs[i];
    assert forall i :: k <= i < |r| ==> r[i] == xs[i + 1];
  }

  /** Removing an element keeps the keys distinct. */
  lemma RemoveFirstKeepsDistinct<T, K>(xs: seq<T>, p: T -> bool, key: T -> K)
    requires Distinct(xs, key)
    ensures Distinct(RemoveFirstWhere(xs, p), key)
  {
    match FirstWhere(xs, p)
    case None =>
    case Some(k) => RemoveAtKeepsDistinct(xs, k, key);
  }

  /** Appending an element whose key is new keeps the keys distinct, and
      the appended element is the first to have that key. */
  lemma AppendKeepsDistinct<T, K>(xs: seq<T>, x: T, key: T -> K)
    requires Distinct(xs, key)
    requires forall i :: 0 <= i < |xs| ==> key(xs[i]) != key(x)
    ensures Distinct(xs + [x], key)
  {
    var r := xs + [x];
    forall i, j | 0 <= i < j < |r|
      ensures key(r[i]) != key(r[j])
    {
      assert r[i] == xs[i];
      if j < |xs| { assert r[j] == xs[j]; }
    }
  }
}
