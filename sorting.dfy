/**
 * `sortGenericItemsInplace` (src/utils/helpers.ts): sorts the caller's array in
 * place by a name key (through the host's locale-aware `localeCompare`) or by a
 * numeric time key. `Array.prototype.sort` is stable, and with a comparator
 * that is a total preorder a stable sort has exactly one possible result, so
 * the model sorts by stable insertion.
 */
module Sorting {

  /** The directions the sort reacts to; `NoSort` stands for any other value. */
  datatype SortDirection = AToZ | ZToA | NewToOld | OldToNew | NoSort

  /** `localeCompare(a, b) <= 0` is abstracted as a total preorder on strings. */
  ghost predicate IsTotalPreorder(strLe: (string, string) -> bool) {
    && (forall a, b :: strLe(a, b) || strLe(b, a))
    && (forall a, b, c :: strLe(a, b) && strLe(b, c) ==> strLe(a, c))
  }

  /** The comparator of one call: direction, the two keys, and the collation. */
  datatype Ordering<-T> = Ordering(direction: SortDirection, name: T -> string, time: T -> int,
                                  strLe: (string, string) -> bool)
  {
    /** `x` may stay before `y`: the comparator's value for (x, y) is not positive. */
    predicate Le(x: T, y: T) {
      match direction
      case AToZ => strLe(name(x), name(y))
      case ZToA => strLe(name(y), name(x))
      case NewToOld => time(y) <= time(x)
      case OldToNew => time(x) <= time(y)
      case NoSort => true
    }

    /** `x` and `y` compare equal. */
    predicate Tied(x: T, y: T) { Le(x, y) && Le(y, x) }

    ghost predicate Valid() { IsTotalPreorder(strLe) }
  }

  lemma LeTotal<T>(o: Ordering<T>, x: T, y: T)
    requires o.Valid()
    ensures o.Le(x, y) || o.Le(y, x)
  {
  }

  lemma LeTransitive<T>(o: Ordering<T>, x: T, y: T, z: T)
    requires o.Valid() && o.Le(x, y) && o.Le(y, z)
    ensures o.Le(x, z)
  {
  }

  ghost predicate Sorted<T>(s: seq<T>, o: Ordering<T>) {
    forall i, j :: 0 <= i < j < |s| ==> o.Le(s[i], s[j])
  }

  /**
   * Insertion of `x` behind the last element that may stay before it, which is
   * what shifting from the right does.
   */
  function Insert<T>(s: seq<T>, x: T, o: Ordering<T>): (r: seq<T>)
    ensures |r| == |s| + 1
  {
    if s == [] || o.Le(s[|s| - 1], x) then s + [x]
    else
      assert s == s[..|s| - 1] + [s[|s| - 1]];
      Insert(s[..|s| - 1], x, o) + [s[|s| - 1]]
  }

  /** The stable sort: each element in turn inserted into the sorted prefix. */
  function InsertionSort<T>(s: seq<T>, o: Ordering<T>): (r: seq<T>)
    ensures |r| == |s|
  {
    if s == [] then []
    else
      assert s == s[..|s| - 1] + [s[|s| - 1]];
      Insert(InsertionSort(s[..|s| - 1], o), s[|s| - 1], o)
  }

  /** Insertion adds `x` and loses nothing. */
  lemma {:induction false} InsertPermutes<T>(s: seq<T>, x: T, o: Ordering<T>)
    ensures multiset(Insert(s, x, o)) == multiset(s) + multiset{x}
  {
    if s != [] && !o.Le(s[|s| - 1], x) {
      InsertPermutes(s[..|s| - 1], x, o);
      assert s == s[..|s| - 1] + [s[|s| - 1]];
    }
  }

  /** The sort is a permutation of its input. */
  lemma {:induction false} InsertionSortPermutes<T>(s: seq<T>, o: Ordering<T>)
    ensures multiset(InsertionSort(s, o)) == multiset(s)
  {
    if s != [] {
      InsertionSortPermutes(s[..|s| - 1], o);
      InsertPermutes(InsertionSort(s[..|s| - 1], o), s[|s| - 1], o);
      assert s == s[..|s| - 1] + [s[|s| - 1]];
    }
  }

  lemma {:induction false} InsertSorted<T>(s: seq<T>, x: T, o: Ordering<T>)
    requires o.Valid() && Sorted(s, o)
    ensures Sorted(Insert(s, x, o), o)
  {
    if s == [] {
    } else if o.Le(s[|s| - 1], x) {
      forall i | 0 <= i < |s| ensures o.Le(s[i], x) {
        if i < |s| - 1 { LeTransitive(o, s[i], s[|s| - 1], x); }
      }
    } else {
      var last := s[|s| - 1];
      var init := s[..|s| - 1];
      LeTotal(o, last, x);
      InsertSorted(init, x, o);
      InsertPermutes(init, x, o);
      var r := Insert(init, x, o);
      forall y | y in r ensures o.Le(y, last) {
        assert y in multiset(r);
        if y != x {
          assert y in multiset(init);
          var i :| 0 <= i < |init| && init[i] == y;
          assert s[i] == y;
        }
      }
    }
  }

  /** The result is ordered by the direction's key. */
  lemma {:induction false} InsertionSortSorted<T>(s: seq<T>, o: Ordering<T>)
    requires o.Valid()
    ensures Sorted(InsertionSort(s, o), o)
  {
    if s != [] {
      InsertionSortSorted(s[..|s| - 1], o);
      InsertSorted(InsertionSort(s[..|s| - 1], o), s[|s| - 1], o);
    }
  }

  /** Any other direction leaves the items as they are. */
  lemma {:induction false} InsertionSortNoSort<T>(s: seq<T>, o: Ordering<T>)
    requires o.direction == NoSort
    ensures InsertionSort(s, o) == s
  {
    if s != [] {
      InsertionSortNoSort(s[..|s| - 1], o);
      assert s[..|s| - 1] + [s[|s| - 1]] == s;
    }
  }

  /** The items tied with `k`, in their order in `s`. */
  function TiedWith<T>(s: seq<T>, k: T, o: Ordering<T>): seq<T> {
    if s == [] then []
    else TiedWith(s[..|s| - 1], k, o) + (if o.Tied(s[|s| - 1], k) then [s[|s| - 1]] else [])
  }

  lemma {:induction false} TiedWithAppend<T>(s: seq<T>, u: seq<T>, k: T, o: Ordering<T>)
    ensures TiedWith(s + u, k, o) == TiedWith(s, k, o) + TiedWith(u, k, o)
    decreases |u|
  {
    if u == [] {
      assert s + u == s;
    } else {
      assert (s + u)[..|s + u| - 1] == s + u[..|u| - 1];
      TiedWithAppend(s, u[..|u| - 1], k, o);
    }
  }

  lemma {:induction false} InsertStable<T>(s: seq<T>, x: T, k: T, o: Ordering<T>)
    requires o.Valid()
    ensures TiedWith(Insert(s, x, o), k, o) == TiedWith(s, k, o) + TiedWith([x], k, o)
  {
    if s == [] || o.Le(s[|s| - 1], x) {
      TiedWithAppend(s, [x], k, o);
    } else {
      var last := s[|s| - 1];
      var init := s[..|s| - 1];
      InsertStable(init, x, k, o);
      TiedWithAppend(Insert(init, x, o), [last], k, o);
      TiedWithAppend(init, [last], k, o);
      TiedWithAppend(init, [x], k, o);
      assert init + [last] == s;
      LeTotal(o, last, x);
      if o.Tied(x, k) && o.Tied(last, k) {
        LeTransitive(o, last, k, x);
      }
      assert TiedWith([x], k, o) == [] || TiedWith([last], k, o) == [];
    }
  }

  /** Stability: items that compare equal keep their relative order. */
  lemma {:induction false} InsertionSortStable<T>(s: seq<T>, k: T, o: Ordering<T>)
    requires o.Valid()
    ensures TiedWith(InsertionSort(s, o), k, o) == TiedWith(s, k, o)
  {
    if s != [] {
      var init, x := s[..|s| - 1], s[|s| - 1];
      calc {
        TiedWith(InsertionSort(s, o), k, o);
        TiedWith(Insert(InsertionSort(init, o), x, o), k, o);
      == { InsertStable(InsertionSort(init, o), x, k, o); }
        TiedWith(InsertionSort(init, o), k, o) + TiedWith([x], k, o);
      == { InsertionSortStable(init, k, o); }
        TiedWith(init, k, o) + TiedWith([x], k, o);
      == { TiedWithAppend(init, [x], k, o); }
        TiedWith(init + [x], k, o);
      == { assert init + [x] == s; }
        TiedWith(s, k, o);
      }
    }
  }

  /**
   * `sortGenericItemsInplace`: the array ends up as the stable sort of its old
   * contents, and is left alone for a direction it does not know.
   */
  method SortGenericItemsInplace<T>(items: array<T>, o: Ordering<T>)
    modifies items
    ensures items[..] == InsertionSort(old(items[..]), o)
    ensures multiset(items[..]) == multiset(old(items[..]))
    ensures o.Valid() ==> Sorted(items[..], o)
    ensures o.direction == NoSort ==> items[..] == old(items[..])
  {
    ghost var s := items[..];
    InsertionSortPermutes(s, o);
    if o.Valid() {
      InsertionSortSorted(s, o);
    }
    if o.direction == NoSort {
      InsertionSortNoSort(s, o);
      return;
    }
    var i := 0;
    while i < items.Length
      invariant 0 <= i <= items.Length
      invariant items[..i] == InsertionSort(s[..i], o)
      invariant items[i..] == s[i..]
    {
      assert items[i] == s[i] && items[i + 1..] == s[i + 1..] by { DropFirst(items[i..], s[i..]); }
      SortPrefixStep(s, i, o);
      InsertAt(items, i, o);
      i := i + 1;
    }
    assert items[..] == InsertionSort(s, o) by {
      assert items[..] == items[..items.Length];
      assert s == s[..items.Length];
    }
  }

  lemma DropFirst<T>(a: seq<T>, b: seq<T>)
    requires a == b && |a| > 0
    ensures a[0] == b[0] && a[1..] == b[1..]
  {
  }

  /** Sorting one more element of the input inserts it into the sorted prefix. */
  lemma SortPrefixStep<T>(s: seq<T>, i: int, o: Ordering<T>)
    requires 0 <= i < |s|
    ensures InsertionSort(s[..i + 1], o) == Insert(InsertionSort(s[..i], o), s[i], o)
  {
    assert s[..i + 1][..i] == s[..i];
    assert s[..i + 1][i] == s[i];
  }

  /** Shifts `items[i]` left into the sorted prefix `items[..i]`, as the sort's inner loop does. */
  method InsertAt<T>(items: array<T>, i: int, o: Ordering<T>)
    requires 0 <= i < items.Length
    modifies items
    ensures items[..i + 1] == Insert(old(items[..i]), old(items[i]), o)
    ensures items[i + 1..] == old(items[i + 1..])
  {
    ghost var prefix, suffix := items[..i], items[i + 1..];
    var x := items[i];
    var j := i;
    assert items[..] == Holed(prefix, j, x, suffix) by {
      assert items[..] == items[..i] + [items[i]] + items[i + 1..];
    }
    assert prefix[..j] == prefix && prefix[j..] == [];
    while j > 0 && !o.Le(items[j - 1], x)
      invariant 0 <= j <= i
      invariant items[..] == Holed(prefix, j, items[j], suffix)
      invariant Insert(prefix, x, o) == Insert(prefix[..j], x, o) + prefix[j..]
    {
      ghost var before := items[..];
      HoledAt(prefix, j, items[j], suffix);
      ShiftStep(prefix, j, x, o);
      HoledShift(prefix, j, items[j], suffix);
      items[j] := items[j - 1];
      assert items[..] == before[j := prefix[j - 1]];
      j := j - 1;
    }
    ghost var before := items[..];
    HoledPlace(prefix, j, items[j], x, suffix);
    items[j] := x;
    assert items[..] == before[j := x];
    ghost var placed := items[..];
    HoledSplit(prefix, j, x, suffix);
    assert items[..i + 1] == placed[..i + 1] == prefix[..j] + [x] + prefix[j..];
    assert items[i + 1..] == placed[i + 1..] == suffix;
    InsertHere(prefix, j, x, o);
    assert prefix[..j] + [x] + prefix[j..] == Insert(prefix[..j], x, o) + prefix[j..];
  }

  /** The array during the shift: the prefix with a hole at `j` holding `h`, then the untouched suffix. */
  ghost function Holed<T>(prefix: seq<T>, j: int, h: T, suffix: seq<T>): (r: seq<T>)
    requires 0 <= j <= |prefix|
    ensures |r| == |prefix| + 1 + |suffix|
  {
    prefix[..j] + [h] + prefix[j..] + suffix
  }

  lemma HoledAt<T>(prefix: seq<T>, j: int, h: T, suffix: seq<T>)
    requires 0 <= j <= |prefix|
    ensures Holed(prefix, j, h, suffix)[j] == h
    ensures j > 0 ==> Holed(prefix, j, h, suffix)[j - 1] == prefix[j - 1]
  {
  }

  /** Copying `items[j - 1]` into the hole moves the hole one place left. */
  lemma HoledShift<T>(prefix: seq<T>, j: int, h: T, suffix: seq<T>)
    requires 0 < j <= |prefix|
    ensures Holed(prefix, j, h, suffix)[j := prefix[j - 1]] == Holed(prefix, j - 1, prefix[j - 1], suffix)
  {
    assert prefix[..j] == prefix[..j - 1] + [prefix[j - 1]];
    assert prefix[j - 1..] == [prefix[j - 1]] + prefix[j..];
  }

  lemma HoledPlace<T>(prefix: seq<T>, j: int, h: T, x: T, suffix: seq<T>)
    requires 0 <= j <= |prefix|
    ensures Holed(prefix, j, h, suffix)[j := x] == Holed(prefix, j, x, suffix)
  {
  }

  lemma HoledSplit<T>(prefix: seq<T>, j: int, x: T, suffix: seq<T>)
    requires 0 <= j <= |prefix|
    ensures Holed(prefix, j, x, suffix)[..|prefix| + 1] == prefix[..j] + [x] + prefix[j..]
    ensures Holed(prefix, j, x, suffix)[|prefix| + 1..] == suffix
  {
    assert |prefix[..j] + [x] + prefix[j..]| == |prefix| + 1;
  }

  /** The shifting stops where the element may stay: behind `prefix[j - 1]`, or at the front. */
  lemma InsertHere<T>(prefix: seq<T>, j: int, x: T, o: Ordering<T>)
    requires 0 <= j <= |prefix| && (j == 0 || o.Le(prefix[j - 1], x))
    ensures Insert(prefix[..j], x, o) == prefix[..j] + [x]
  {
    if j > 0 {
      assert prefix[..j][j - 1] == prefix[j - 1];
    }
  }

  /** One step of the shifting loop moves the insertion point one place left. */
  lemma ShiftStep<T>(prefix: seq<T>, j: int, x: T, o: Ordering<T>)
    requires 0 < j <= |prefix| && !o.Le(prefix[j - 1], x)
    ensures Insert(prefix[..j], x, o) + prefix[j..] == Insert(prefix[..j - 1], x, o) + prefix[j - 1..]
  {
    assert prefix[..j][..j - 1] == prefix[..j - 1];
    assert [prefix[j - 1]] + prefix[j..] == prefix[j - 1..];
  }
}
