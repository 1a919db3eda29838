/**
  The generic slice helpers of package `slices`, one member per Go function.

  A Go slice that a helper only reads is a `seq`. Where the helper copies the
  caller's slice before editing it (`copy`, `Remove`, `RemoveAt`) or edits it
  in place (`Shuffle`), the slice is an `array`, so that "the caller's slice
  is not altered" is what the absence of a `modifies` clause says. Go's
  numeric type set is modelled by mathematical `int`, and a callback
  `func(T) U` by a total Dafny function `T -> U`.
*/
module Slices {
  import opened SliceSpec

  // ---------------------------------------------------------------------------
  // Removal and search
  // ---------------------------------------------------------------------------

  /** A fresh array with the same elements as `slice`. */
  method Copy<T>(slice: array<T>) returns (c: array<T>)
    ensures fresh(c) && c[..] == slice[..]
  {
    c := new T[slice.Length](i requires 0 <= i < slice.Length reads slice => slice[i]);
  }

  /**
    `append(c[:index], c[index+1:]...)` on a slice that owns its array: the
    elements after `index` move one place to the left; the last cell keeps
    its old value.
  */
  method ShiftLeft<T>(c: array<T>, index: nat)
    requires index < c.Length
    modifies c
    ensures c[..c.Length - 1] == old(c[..index]) + old(c[index + 1..])
    ensures c[c.Length - 1] == old(c[c.Length - 1])
  {
    var k := index;
    while k < c.Length - 1
      invariant index <= k <= c.Length - 1
      invariant forall m :: 0 <= m < index ==> c[m] == old(c[m])
      invariant forall m :: index <= m < k ==> c[m] == old(c[m + 1])
      invariant forall m :: k <= m < c.Length ==> c[m] == old(c[m])
    {
      c[k] := c[k + 1];
      k := k + 1;
    }
  }

  /** A copy of `slice` without its first element equal to `item`. */
  method Remove<T(==)>(slice: array<T>, item: T) returns (r: seq<T>)
    ensures r == RemoveFirst(slice[..], item)
  {
    var c := Copy(slice);
    var i := 0;
    while i < c.Length
      invariant 0 <= i <= c.Length
      invariant c[..] == slice[..]
      invariant item !in c[..i]
    {
      if c[i] == item {
        RemoveFirstAt(c[..], item, i);
        ShiftLeft(c, i);
        return c[..c.Length - 1];
      }
      i := i + 1;
    }
    assert c[..i] == c[..];
    RemoveFirstAbsent(c[..], item);
    return c[..];
  }

  /** A copy of `slice` without the element at `index`. */
  method RemoveAt<T>(slice: array<T>, index: int) returns (r: seq<T>)
    requires 0 <= index < slice.Length
    ensures r == slice[..index] + slice[index + 1..]
    ensures |r| == slice.Length - 1 && multiset(r) == multiset(slice[..]) - multiset{slice[index]}
  {
    var c := Copy(slice);
    ShiftLeft(c, index);
    r := c[..c.Length - 1];
    DeleteAtCount(slice[..], index);
  }

  /** Linear search: true exactly when some element equals `item`. */
  method Contains<T(==)>(slice: seq<T>, item: T) returns (found: bool)
    ensures found <==> item in slice
  {
    for i := 0 to |slice|
      invariant item !in slice[..i]
    {
      if slice[i] == item {
        return true;
      }
    }
    return false;
  }

  /** Linear search for the first index holding `item`; -1 when there is none. */
  method IndexOf<T(==)>(slice: seq<T>, item: T) returns (r: int)
    ensures r == -1 <==> item !in slice
    ensures r != -1 ==> 0 <= r < |slice| && slice[r] == item && item !in slice[..r]
  {
    for i := 0 to |slice|
      invariant item !in slice[..i]
    {
      if slice[i] == item {
        return i;
      }
    }
    return -1;
  }

  // ---------------------------------------------------------------------------
  // Transforms and folds
  // ---------------------------------------------------------------------------

  /** The elements of `slice` that satisfy `f`, in order. */
  method Filter<T>(slice: seq<T>, f: T -> bool) returns (result: seq<T>)
    ensures result == Filtered(slice, f)
  {
    result := [];
    for i := 0 to |slice|
      invariant result == Filtered(slice[..i], f)
    {
      assert slice[..i + 1][..i] == slice[..i];
      if f(slice[i]) {
        result := result + [slice[i]];
      }
    }
    assert slice[..|slice|] == slice;
  }

  /** `f` applied to each element, in order. */
  method Map<T, U>(slice: seq<T>, f: T -> U) returns (result: seq<U>)
    ensures |result| == |slice|
    ensures forall i :: 0 <= i < |slice| ==> result[i] == f(slice[i])
  {
    result := [];
    for i := 0 to |slice|
      invariant |result| == i
      invariant forall k :: 0 <= k < i ==> result[k] == f(slice[k])
    {
      result := result + [f(slice[i])];
    }
  }

  /** The largest element, or 0 for an empty slice. */
  method Max(slice: seq<int>) returns (max: int)
    ensures |slice| == 0 ==> max == 0
    ensures |slice| > 0 ==> max in slice && forall i :: 0 <= i < |slice| ==> slice[i] <= max
  {
    if |slice| == 0 {
      return 0;
    }
    max := slice[0];
    for i := 0 to |slice|
      invariant max in slice
      invariant forall k :: 0 <= k < i ==> slice[k] <= max
    {
      if slice[i] > max {
        max := slice[i];
      }
    }
  }

  /** The smallest element, or 0 for an empty slice. */
  method Min(slice: seq<int>) returns (min: int)
    ensures |slice| == 0 ==> min == 0
    ensures |slice| > 0 ==> min in slice && forall i :: 0 <= i < |slice| ==> min <= slice[i]
  {
    if |slice| == 0 {
      return 0;
    }
    min := slice[0];
    for i := 0 to |slice|
      invariant min in slice
      invariant forall k :: 0 <= k < i ==> min <= slice[k]
    {
      if slice[i] < min {
        min := slice[i];
      }
    }
  }

  /** The sum of the elements, starting from 0. */
  method Sum(slice: seq<int>) returns (sum: int)
    ensures sum == Total(slice)
  {
    sum := 0;
    for i := 0 to |slice|
      invariant sum == Total(slice[..i])
    {
      assert slice[..i + 1][..i] == slice[..i];
      sum := sum + slice[i];
    }
    assert slice[..|slice|] == slice;
  }

  /**
    `Sum(slice) / len(slice)` with Go's integer division, which rounds toward
    zero. An empty slice is a division by zero in Go, hence the precondition.
  */
  function Average(slice: seq<int>): (r: int)
    requires |slice| > 0
    ensures Total(slice) >= 0 ==> |slice| * r <= Total(slice) < |slice| * (r + 1)
    ensures Total(slice) < 0 ==> |slice| * (r - 1) < Total(slice) <= |slice| * r
  {
    TruncDiv(Total(slice), |slice|)
  }

  /** The average lies between any lower and upper bound of the elements, so between `Min` and `Max`. */
  lemma AverageBetween(slice: seq<int>, lo: int, hi: int)
    requires |slice| > 0
    requires forall i :: 0 <= i < |slice| ==> lo <= slice[i] <= hi
    ensures lo <= Average(slice) <= hi
  {
    TotalBounds(slice, lo, hi);
    var n, r, t := |slice|, Average(slice), Total(slice);
    if r > hi {
      MulMonotone(n, hi + 1, r);
    }
    if r < lo {
      MulMonotone(n, r + 1, lo);
    }
  }

  /** Multiplying by a positive number keeps order. */
  lemma MulMonotone(n: int, a: int, b: int)
    requires n > 0 && a <= b
    ensures n * a <= n * b
  {
  }

  /** A left fold of `f` over the elements, starting from `initial`. */
  method Reduce<T, U>(slice: seq<T>, initial: U, f: (U, T) -> U) returns (result: U)
    ensures result == FoldLeft(slice, initial, f)
  {
    result := initial;
    for i := 0 to |slice|
      invariant result == FoldLeft(slice[..i], initial, f)
    {
      assert slice[..i + 1][..i] == slice[..i];
      result := f(result, slice[i]);
    }
    assert slice[..|slice|] == slice;
  }

  /** True exactly when some element satisfies `f`; false for an empty slice. */
  method Some<T>(slice: seq<T>, f: T -> bool) returns (b: bool)
    ensures b <==> exists i :: 0 <= i < |slice| && f(slice[i])
  {
    for i := 0 to |slice|
      invariant forall k :: 0 <= k < i ==> !f(slice[k])
    {
      if f(slice[i]) {
        return true;
      }
    }
    return false;
  }

  /** True exactly when every element satisfies `f`; true for an empty slice. */
  method Every<T>(slice: seq<T>, f: T -> bool) returns (b: bool)
    ensures b <==> forall i :: 0 <= i < |slice| ==> f(slice[i])
  {
    for i := 0 to |slice|
      invariant forall k :: 0 <= k < i ==> f(slice[k])
    {
      if !f(slice[i]) {
        return false;
      }
    }
    return true;
  }

  // ---------------------------------------------------------------------------
  // Uniqueness
  // ---------------------------------------------------------------------------

  /**
    The first occurrence of each distinct element, in order of first
    occurrence. A map records the rank of each element when first seen; the
    result is then rebuilt by writing each element at its rank, visiting the
    map's keys in an arbitrary order.
  */
  method Unique<T(==,0)>(slice: seq<T>) returns (result: seq<T>)
    ensures result == Dedup(slice)
  {
    var i := 0;
    var have: map<T, int> := map[];
    for n := 0 to |slice|
      invariant i == |Dedup(slice[..n])|
      invariant forall x :: x in have <==> x in slice[..n]
      invariant forall j :: 0 <= j < i ==> Dedup(slice[..n])[j] in have && have[Dedup(slice[..n])[j]] == j
      invariant forall x :: x in have ==> 0 <= have[x] < i && Dedup(slice[..n])[have[x]] == x
    {
      var v := slice[n];
      assert slice[..n + 1][..n] == slice[..n];
      if v !in have {
        have := have[v := i];
        i := i + 1;
      }
    }
    assert slice[..|slice|] == slice;
    ghost var d := Dedup(slice);

    var arr := new T[i];
    var pending := have.Keys;
    ghost var written: set<int> := {};
    while pending != {}
      invariant pending <= have.Keys
      invariant written == set x | x in have.Keys - pending :: have[x]
      invariant forall x :: x in have.Keys - pending ==> arr[have[x]] == x
      decreases pending
    {
      var k :| k in pending;
      // the rank of `k` has not been written yet: ranks are distinct
      assert have[k] !in written;
      arr[have[k]] := k;
      written := written + {have[k]};
      pending := pending - {k};
    }
    // every rank 0 .. i - 1 was written exactly once
    forall j | 0 <= j < i
      ensures j in written && arr[j] == d[j]
    {
      assert d[j] in have.Keys - pending && have[d[j]] == j;
    }
    assert forall j :: j in written <==> 0 <= j < i;
    result := arr[..];
  }

  /** The first-seen rank of a key and the element that carried it. */
  datatype Pair<T> = Pair(index: int, value: T)

  /**
    For each distinct key `f(v)`, the first element with that key, in order of
    first occurrence; rebuilt from the map of first-seen ranks as in `Unique`.
  */
  method UniqueBy<T(0), U(==)>(slice: seq<T>, f: T -> U) returns (result: seq<T>)
    ensures result == DedupBy(slice, f)
  {
    var i := 0;
    var have: map<U, Pair<T>> := map[];
    for n := 0 to |slice|
      invariant i == |DedupBy(slice[..n], f)|
      invariant forall u :: u in have <==> HasKey(slice[..n], f, u)
      invariant forall j :: 0 <= j < i ==>
        f(DedupBy(slice[..n], f)[j]) in have && have[f(DedupBy(slice[..n], f)[j])] == Pair(j, DedupBy(slice[..n], f)[j])
      invariant forall u :: u in have ==> 0 <= have[u].index < i && f(DedupBy(slice[..n], f)[have[u].index]) == u
    {
      var v := slice[n];
      var unique := f(v);
      assert slice[..n + 1][..n] == slice[..n];
      assert slice[..n + 1] == slice[..n] + [v];
      forall u
        ensures HasKey(slice[..n + 1], f, u) <==> HasKey(slice[..n], f, u) || u == unique
      {
        HasKeyAppend(slice[..n], v, f, u);
      }
      assert unique in have <==> HasKey(slice[..n], f, unique);
      assert slice[..n + 1][n] == v;
      assert DedupBy(slice[..n + 1], f) ==
        if unique in have then DedupBy(slice[..n], f) else DedupBy(slice[..n], f) + [v];
      if unique !in have {
        have := have[unique := Pair(i, v)];
        i := i + 1;
      }
    }
    assert slice[..|slice|] == slice;
    ghost var d := DedupBy(slice, f);

    var arr := new T[i];
    var pending := have.Keys;
    ghost var written: set<int> := {};
    while pending != {}
      invariant pending <= have.Keys
      invariant written == set u | u in have.Keys - pending :: have[u].index
      invariant forall u :: u in have.Keys - pending ==> arr[have[u].index] == have[u].value
      decreases pending
    {
      var k :| k in pending;
      var p := have[k];
      // the rank in `p` has not been written yet: ranks are distinct
      assert p.index !in written;
      arr[p.index] := p.value;
      written := written + {p.index};
      pending := pending - {k};
    }
    // every rank 0 .. i - 1 was written exactly once
    forall j | 0 <= j < i
      ensures j in written && arr[j] == d[j]
    {
      assert f(d[j]) in have.Keys - pending && have[f(d[j])] == Pair(j, d[j]);
    }
    assert forall j :: j in written <==> 0 <= j < i;
    result := arr[..];
  }

  // ---------------------------------------------------------------------------
  // Association
  // ---------------------------------------------------------------------------

  /**
    Maps `keys[i]` to `values[i]` for every index present in both slices;
    when a key repeats, the last write wins.
  */
  method Associate<K(==), V>(keys: seq<K>, values: seq<V>) returns (result: map<K, V>)
    ensures forall k :: k in result <==> exists i :: 0 <= i < |keys| && i < |values| && keys[i] == k
    ensures forall k :: k in result ==>
      exists j :: 0 <= j < |keys| && j < |values| && keys[j] == k && result[k] == values[j] &&
        forall m :: j < m < |keys| && m < |values| ==> keys[m] != k
  {
    result := map[];
    var i := 0;
    while i < |keys|
      invariant 0 <= i <= |keys| && i <= |values|
      invariant forall k :: k in result <==> exists m :: 0 <= m < i && keys[m] == k
      invariant forall k :: k in result ==>
        exists j :: 0 <= j < i && keys[j] == k && result[k] == values[j] && forall m :: j < m < i ==> keys[m] != k
    {
      if i >= |values| {
        break;
      }
      result := result[keys[i] := values[i]];
      i := i + 1;
    }
  }

  /** Maps each key to `valueGenerator` of it. */
  method AssociateBy<K(==), V>(keys: seq<K>, valueGenerator: K -> V) returns (result: map<K, V>)
    ensures forall k :: k in result <==> k in keys
    ensures forall k :: k in result ==> result[k] == valueGenerator(k)
  {
    result := map[];
    for i := 0 to |keys|
      invariant forall k :: k in result <==> k in keys[..i]
      invariant forall k :: k in result ==> result[k] == valueGenerator(k)
    {
      assert keys[..i + 1] == keys[..i] + [keys[i]];
      result := result[keys[i] := valueGenerator(keys[i])];
    }
    assert keys[..|keys|] == keys;
  }

  /**
    Maps `keyGenerator(v)` to `v` for each value; when two values share a
    key, the later one wins.
  */
  method AssociateReverseBy<V, K(==)>(values: seq<V>, keyGenerator: V -> K) returns (result: map<K, V>)
    ensures forall k :: k in result <==> exists i :: 0 <= i < |values| && keyGenerator(values[i]) == k
    ensures forall k :: k in result ==>
      exists j :: 0 <= j < |values| && keyGenerator(values[j]) == k && result[k] == values[j] &&
        forall m :: j < m < |values| ==> keyGenerator(values[m]) != k
  {
    result := map[];
    for i := 0 to |values|
      invariant forall k :: k in result <==> exists m :: 0 <= m < i && keyGenerator(values[m]) == k
      invariant forall k :: k in result ==>
        exists j :: 0 <= j < i && keyGenerator(values[j]) == k && result[k] == values[j] &&
          forall m :: j < m < i ==> keyGenerator(values[m]) != k
    {
      result := result[keyGenerator(values[i]) := values[i]];
    }
  }

  // ---------------------------------------------------------------------------
  // Interspersion
  // ---------------------------------------------------------------------------

  /** `values[0], separator, values[1], separator, ...`; empty for an empty slice. */
  method Intersperse<T>(values: seq<T>, separator: T) returns (result: seq<T>)
    ensures |result| == if |values| == 0 then 0 else 2 * |values| - 1
    ensures forall k :: 0 <= k < |values| ==> result[2 * k] == values[k]
    ensures forall k :: 0 <= k < |values| - 1 ==> result[2 * k + 1] == separator
  {
    if |values| == 0 {
      return [];
    }
    result := [values[0]];
    var rest := values[1..];
    for i := 0 to |rest|
      invariant |result| == 2 * i + 1
      invariant forall k :: 0 <= k <= i ==> result[2 * k] == values[k]
      invariant forall k :: 0 <= k < i ==> result[2 * k + 1] == separator
    {
      result := result + [separator, rest[i]];
    }
  }

  /**
    Like `Intersperse`, but the separator after `values[k]` is
    `separatorGenerator(values[k])`, computed from the element before it.
  */
  method IntersperseBy<T>(values: seq<T>, separatorGenerator: T -> T) returns (result: seq<T>)
    ensures |result| == if |values| == 0 then 0 else 2 * |values| - 1
    ensures forall k :: 0 <= k < |values| ==> result[2 * k] == values[k]
    ensures forall k :: 0 <= k < |values| - 1 ==> result[2 * k + 1] == separatorGenerator(values[k])
  {
    if |values| == 0 {
      return [];
    }
    result := [values[0]];
    var rest := values[1..];
    for i := 0 to |rest|
      invariant |result| == 2 * i + 1
      invariant forall k :: 0 <= k <= i ==> result[2 * k] == values[k]
      invariant forall k :: 0 <= k < i ==> result[2 * k + 1] == separatorGenerator(values[k])
    {
      result := result + [separatorGenerator(values[i]), rest[i]];
    }
  }

  /**
    Like `Intersperse`, but the separator after `values[k]` is
    `separatorGenerator(k)`, computed from the index of the element before it.
  */
  method IntersperseByIndex<T>(values: seq<T>, separatorGenerator: int -> T) returns (result: seq<T>)
    ensures |result| == if |values| == 0 then 0 else 2 * |values| - 1
    ensures forall k :: 0 <= k < |values| ==> result[2 * k] == values[k]
    ensures forall k :: 0 <= k < |values| - 1 ==> result[2 * k + 1] == separatorGenerator(k)
  {
    if |values| == 0 {
      return [];
    }
    result := [values[0]];
    var rest := values[1..];
    for i := 0 to |rest|
      invariant |result| == 2 * i + 1
      invariant forall k :: 0 <= k <= i ==> result[2 * k] == values[k]
      invariant forall k :: 0 <= k < i ==> result[2 * k + 1] == separatorGenerator(k)
    {
      result := result + [separatorGenerator(i), rest[i]];
    }
  }

  // ---------------------------------------------------------------------------
  // Shuffle
  // ---------------------------------------------------------------------------

  /**
    Fisher-Yates shuffle in place: for `i` from the last index down to 1, swap
    `slice[i]` with `slice[j]` for some `j` in `[0, i]`. The choice of `j` is
    left open, so the contract holds whatever the random source returns.
  */
  method Shuffle<T>(slice: array<T>)
    modifies slice
    ensures multiset(slice[..]) == old(multiset(slice[..]))
  {
    var i := slice.Length - 1;
    while i > 0
      invariant -1 <= i < slice.Length
      invariant multiset(slice[..]) == old(multiset(slice[..]))
    {
      var j :| 0 <= j <= i;
      slice[i], slice[j] := slice[j], slice[i];
      i := i - 1;
    }
  }
}
