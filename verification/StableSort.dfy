/** Stable sorting by a key that may be unknown, unknown keys last: what sort.SliceStable makes of the
    comparison in service/managed_session.go:696-707. */
module StableSort {
  import opened Json

  predicate AtMost(a: Option<int>, b: Option<int>) {
    b.None? || (a.Some? && a.value <= b.value)
  }

  /** Behind every element with an equal or smaller key. */
  function Insert<T>(xs: seq<T>, x: T, key: T -> Option<int>): (r: seq<T>)
    ensures |r| == |xs| + 1
  {
    if xs == [] || AtMost(key(xs[|xs| - 1]), key(x)) then xs + [x]
    else Insert(xs[..|xs| - 1], x, key) + [xs[|xs| - 1]]
  }

  function Sort<T>(xs: seq<T>, key: T -> Option<int>): (r: seq<T>)
    ensures |r| == |xs|
  {
    if xs == [] then [] else Insert(Sort(xs[..|xs| - 1], key), xs[|xs| - 1], key)
  }

  predicate Sorted<T>(xs: seq<T>, key: T -> Option<int>) {
    forall i, j :: 0 <= i < j < |xs| ==> AtMost(key(xs[i]), key(xs[j]))
  }

  /** The elements with key `k`, in order. */
  function Only<T>(xs: seq<T>, key: T -> Option<int>, k: Option<int>): seq<T> {
    if xs == [] then []
    else Only(xs[..|xs| - 1], key, k) + (if key(xs[|xs| - 1]) == k then [xs[|xs| - 1]] else [])
  }

  /** What a stable sort is: ascending, and the elements of each key are the same in the same order. */
  ghost predicate IsStableSort<T(!new)>(xs: seq<T>, ys: seq<T>, key: T -> Option<int>) {
    Sorted(ys, key) && forall k :: Only(ys, key, k) == Only(xs, key, k)
  }

  lemma OnlySnoc<T>(xs: seq<T>, x: T, key: T -> Option<int>, k: Option<int>)
    ensures Only(xs + [x], key, k) == Only(xs, key, k) + (if key(x) == k then [x] else [])
  {
    assert (xs + [x])[..|xs|] == xs;
  }

  lemma {:induction false} InsertKeeps<T>(xs: seq<T>, x: T, key: T -> Option<int>, k: Option<int>)
    ensures Only(Insert(xs, x, key), key, k) == Only(xs, key, k) + (if key(x) == k then [x] else [])
    ensures multiset(Insert(xs, x, key)) == multiset(xs) + multiset{x}
  {
    hide Only;
    if xs == [] || AtMost(key(xs[|xs| - 1]), key(x)) {
      OnlySnoc(xs, x, key, k);
    } else {
      var rest, last := xs[..|xs| - 1], xs[|xs| - 1];
      assert xs == rest + [last];
      InsertKeeps(rest, x, key, k);
      OnlySnoc(rest, last, key, k);
      OnlySnoc(Insert(rest, x, key), last, key, k);
    }
  }

  lemma {:induction false} InsertSorted<T>(xs: seq<T>, x: T, key: T -> Option<int>)
    requires Sorted(xs, key)
    ensures Sorted(Insert(xs, x, key), key)
    ensures forall i :: 0 <= i <= |xs| ==> Insert(xs, x, key)[i] == x || Insert(xs, x, key)[i] in xs
  {
    if xs == [] || AtMost(key(xs[|xs| - 1]), key(x)) {
    } else {
      InsertSorted(xs[..|xs| - 1], x, key);
    }
  }

  lemma {:induction false} SortIsStableSort<T(!new)>(xs: seq<T>, key: T -> Option<int>)
    ensures IsStableSort(xs, Sort(xs, key), key)
    ensures multiset(Sort(xs, key)) == multiset(xs)
  {
    hide Only, Insert;
    if xs != [] {
      var rest, last := xs[..|xs| - 1], xs[|xs| - 1];
      assert xs == rest + [last];
      SortIsStableSort(rest, key);
      InsertSorted(Sort(rest, key), last, key);
      InsertKeeps(Sort(rest, key), last, key, None);
      forall k ensures Only(Sort(xs, key), key, k) == Only(xs, key, k) {
        InsertKeeps(Sort(rest, key), last, key, k);
        OnlySnoc(rest, last, key, k);
      }
    }
  }

  lemma {:induction false} OnlyHas<T>(xs: seq<T>, key: T -> Option<int>, k: Option<int>, i: nat)
    requires i < |xs| && key(xs[i]) == k
    ensures Only(xs, key, k) != []
  {
    if i < |xs| - 1 {
      OnlyHas(xs[..|xs| - 1], key, k, i);
    }
  }

  lemma {:induction false} OnlyFrom<T>(xs: seq<T>, key: T -> Option<int>, k: Option<int>) returns (i: nat)
    requires Only(xs, key, k) != []
    ensures i < |xs| && key(xs[i]) == k
  {
    if key(xs[|xs| - 1]) == k {
      i := |xs| - 1;
    } else {
      i := OnlyFrom(xs[..|xs| - 1], key, k);
    }
  }

  /** The last element of one stable sort is the last of any other. */
  lemma SameLast<T(!new)>(ys: seq<T>, zs: seq<T>, key: T -> Option<int>)
    requires Sorted(ys, key) && Sorted(zs, key) && ys != []
    requires forall k :: Only(ys, key, k) == Only(zs, key, k)
    ensures zs != [] && zs[|zs| - 1] == ys[|ys| - 1]
  {
    hide Only, Sorted;
    var y := ys[|ys| - 1];
    OnlyHas(ys, key, key(y), |ys| - 1);
    var i := OnlyFrom(zs, key, key(y));
    var z := zs[|zs| - 1];
    OnlyHas(zs, key, key(z), |zs| - 1);
    var j := OnlyFrom(ys, key, key(z));
    LastIsGreatest(zs, key, i);
    LastIsGreatest(ys, key, j);
    assert key(z) == key(y);
    OnlyEndsWith(ys, key);
    OnlyEndsWith(zs, key);
  }

  lemma OnlyEndsWith<T>(xs: seq<T>, key: T -> Option<int>)
    requires xs != []
    ensures var last := xs[|xs| - 1]; var same := Only(xs, key, key(last)); |same| > 0 && same[|same| - 1] == last
  {
  }

  lemma OnlyOfNone<T>(xs: seq<T>, key: T -> Option<int>, k: Option<int>)
    requires xs == []
    ensures Only(xs, key, k) == []
  {
  }

  lemma LastIsGreatest<T>(xs: seq<T>, key: T -> Option<int>, i: nat)
    requires Sorted(xs, key) && i < |xs|
    ensures AtMost(key(xs[i]), key(xs[|xs| - 1]))
  {
  }

  /** There is only one stable sort, so any implementation of it yields Sort. */
  lemma {:induction false} StableSortIsUnique<T(!new)>(ys: seq<T>, zs: seq<T>, key: T -> Option<int>)
    requires Sorted(ys, key) && Sorted(zs, key)
    requires forall k :: Only(ys, key, k) == Only(zs, key, k)
    ensures ys == zs
  {
    hide Only;
    if ys == [] {
      if zs != [] {
        OnlyHas(zs, key, key(zs[0]), 0);
        OnlyOfNone(ys, key, key(zs[0]));
      }
    } else {
      SameLast(ys, zs, key);
      var ys', zs', last := ys[..|ys| - 1], zs[..|zs| - 1], ys[|ys| - 1];
      assert ys == ys' + [last] && zs == zs' + [last];
      forall k ensures Only(ys', key, k) == Only(zs', key, k) {
        OnlySnoc(ys', last, key, k);
        OnlySnoc(zs', last, key, k);
        assert Only(ys, key, k) == Only(zs, key, k);
        var more := if key(last) == k then [last] else [];
        assert (Only(ys', key, k) + more)[..|Only(ys', key, k)|] == Only(ys', key, k);
        assert (Only(zs', key, k) + more)[..|Only(zs', key, k)|] == Only(zs', key, k);
      }
      StableSortIsUnique(ys', zs', key);
    }
  }
}
