/**
 * `ListExtensions` (Graphical/src/Extensions/ListExtensions.cs): sorted
 * insertion and binary search on an ascending list, and splitting a list into
 * fixed-length chunks.
 *
 * The element type's `IComparable<T>.CompareTo` is modelled by an integer key:
 * `CompareTo(a, b)` is the sign of `key(a) - key(b)`. Distinct elements may
 * share a key, so where equal-comparing elements end up stays observable.
 */
module ListExtensions {
  import opened Wrappers
  import opened Collections

  /** `a.CompareTo(b)` under the key ordering. */
  function CompareTo<T>(key: T -> int, a: T, b: T): (r: int)
    ensures r < 0 <==> key(a) < key(b)
    ensures r == 0 <==> key(a) == key(b)
  {
    if key(a) < key(b) then -1 else if key(a) == key(b) then 0 else 1
  }

  /** Ascending by key. */
  ghost predicate Sorted<T>(s: seq<T>, key: T -> int)
  {
    forall i, j :: 0 <= i < j < |s| ==> key(s[i]) <= key(s[j])
  }

  /**
   * A linear reference for the bisect-right position: the length of the
   * longest prefix whose elements are all not greater than `x`.
   */
  function UpperBound<T>(s: seq<T>, x: T, key: T -> int): (r: nat)
    ensures r <= |s|
    ensures forall j :: 0 <= j < r ==> key(s[j]) <= key(x)
    ensures r < |s| ==> key(x) < key(s[r])
  {
    if s == [] || key(x) < key(s[0]) then 0 else 1 + UpperBound(s[1..], x, key)
  }

  /** On an ascending list the bisect-right position splits it into "not greater than `x`" and "greater than `x`". */
  lemma UpperBoundSplits<T>(s: seq<T>, x: T, key: T -> int)
    requires Sorted(s, key)
    ensures forall j :: 0 <= j < UpperBound(s, x, key) ==> key(s[j]) <= key(x)
    ensures forall j :: UpperBound(s, x, key) <= j < |s| ==> key(x) < key(s[j])
  {
  }

  /** On an ascending list that split determines the position: any index with it is the bisect-right position. */
  lemma SplitIsUpperBound<T>(s: seq<T>, x: T, key: T -> int, lo: nat)
    requires Sorted(s, key) && lo <= |s|
    requires forall j :: 0 <= j < lo ==> key(s[j]) <= key(x)
    requires forall j :: lo <= j < |s| ==> key(x) < key(s[j])
    ensures lo == UpperBound(s, x, key)
  {
    var u := UpperBound(s, x, key);
    assert lo < |s| ==> key(x) < key(s[lo]);
    assert u < |s| ==> key(x) < key(s[u]);
  }

  /** The list that `AddItemSorted` produces from an ascending list: `x` inserted at its bisect-right position. */
  function InsertSorted<T>(s: seq<T>, x: T, key: T -> int): seq<T>
  {
    var lo := UpperBound(s, x, key);
    s[..lo] + [x] + s[lo..]
  }

  /** Inserting at the bisect-right position keeps an ascending list ascending. */
  lemma InsertSortedIsSorted<T>(s: seq<T>, x: T, key: T -> int)
    requires Sorted(s, key)
    ensures Sorted(InsertSorted(s, x, key), key)
  {
    var lo := UpperBound(s, x, key);
    var r := InsertSorted(s, x, key);
    UpperBoundSplits(s, x, key);
    forall i, j | 0 <= i < j < |r|
      ensures key(r[i]) <= key(r[j])
    {
      if j < lo {
        assert r[i] == s[i] && r[j] == s[j];
      } else if j == lo {
        assert r[j] == x && r[i] == s[i];
      } else if i < lo {
        assert r[i] == s[i] && r[j] == s[j - 1];
      } else if i == lo {
        assert r[i] == x && r[j] == s[j - 1];
      } else {
        assert r[i] == s[i - 1] && r[j] == s[j - 1];
      }
    }
  }

  /**
   * The new item lands after every element that compares equal to it (the
   * test is `CompareTo(...) < 0`), and the list grows by exactly that item.
   */
  lemma InsertSortedAfterEquals<T>(s: seq<T>, x: T, key: T -> int)
    requires Sorted(s, key)
    ensures var r := InsertSorted(s, x, key); var lo := UpperBound(s, x, key);
      && |r| == |s| + 1 && r[lo] == x
      && multiset(r) == multiset(s) + multiset{x}
      && (forall j :: 0 <= j < |s| && key(s[j]) == key(x) ==> j < lo)
  {
    var lo := UpperBound(s, x, key);
    UpperBoundSplits(s, x, key);
    assert s == s[..lo] + s[lo..];
  }

  /**
   * `BisectIndex`: binary search for the bisect-right position. The result is
   * always in `[0, Count]`; on an ascending list every element before it is not
   * greater than `item` and every element from it on is greater.
   */
  method BisectIndex<T>(list: List<T>, item: T, key: T -> int) returns (lo: int)
    ensures 0 <= lo <= |list.elements|
    ensures Sorted(list.elements, key) ==> forall j :: 0 <= j < lo ==> key(list.elements[j]) <= key(item)
    ensures Sorted(list.elements, key) ==> forall j :: lo <= j < |list.elements| ==> key(item) < key(list.elements[j])
  {
    lo := 0;
    var hi := list.Count();
    while lo < hi
      invariant 0 <= lo <= hi <= |list.elements|
      invariant Sorted(list.elements, key) ==> forall j :: 0 <= j < lo ==> key(list.elements[j]) <= key(item)
      invariant Sorted(list.elements, key) ==> forall j :: hi <= j < |list.elements| ==> key(item) < key(list.elements[j])
    {
      var mid := (lo + hi) / 2;
      if CompareTo(key, item, list.elements[mid]) < 0 {
        hi := mid;
      } else {
        lo := mid + 1;
      }
    }
  }

  /**
   * `AddItemSorted`: the same binary search, then `List.Insert` at the found
   * position. On an ascending list the result is `InsertSorted`; on any list the
   * item is inserted somewhere and nothing else moves.
   */
  method AddItemSorted<T>(list: List<T>, item: T, key: T -> int)
    modifies list
    ensures exists lo :: 0 <= lo <= |old(list.elements)| && list.elements == old(list.elements)[..lo] + [item] + old(list.elements)[lo..]
    ensures |list.elements| == |old(list.elements)| + 1
    ensures multiset(list.elements) == multiset(old(list.elements)) + multiset{item}
    ensures Sorted(old(list.elements), key) ==> list.elements == InsertSorted(old(list.elements), item, key)
  {
    var lo := 0;
    var hi := list.Count();
    while lo < hi
      invariant 0 <= lo <= hi <= |list.elements|
      invariant Sorted(list.elements, key) ==> forall j :: 0 <= j < lo ==> key(list.elements[j]) <= key(item)
      invariant Sorted(list.elements, key) ==> forall j :: hi <= j < |list.elements| ==> key(item) < key(list.elements[j])
    {
      var mid := (lo + hi) / 2;
      if CompareTo(key, item, list.elements[mid]) < 0 {
        hi := mid;
      } else {
        lo := mid + 1;
      }
    }
    if Sorted(list.elements, key) {
      SplitIsUpperBound(list.elements, item, key, lo);
    }
    InsertedMultiset(list.elements, lo, item);
    list.Insert(lo, item);
  }

  lemma InsertedMultiset<T>(s: seq<T>, lo: nat, x: T)
    requires lo <= |s|
    ensures multiset(s[..lo] + [x] + s[lo..]) == multiset(s) + multiset{x}
  {
    assert s == s[..lo] + s[lo..];
  }

  /** The list that `AddItemsSorted` produces: each item of `xs`, in order, inserted at its bisect-right position. */
  function InsertAll<T>(s: seq<T>, xs: seq<T>, key: T -> int): seq<T>
  {
    if xs == [] then s else InsertSorted(InsertAll(s, xs[..|xs| - 1], key), xs[|xs| - 1], key)
  }

  /** Inserting any number of items keeps an ascending list ascending and extends its multiset by exactly those items. */
  lemma {:induction false} InsertAllIsSorted<T>(s: seq<T>, xs: seq<T>, key: T -> int)
    requires Sorted(s, key)
    ensures Sorted(InsertAll(s, xs, key), key)
    ensures |InsertAll(s, xs, key)| == |s| + |xs|
    ensures multiset(InsertAll(s, xs, key)) == multiset(s) + multiset(xs)
  {
    if xs != [] {
      var init := xs[..|xs| - 1];
      var last := xs[|xs| - 1];
      InsertAllIsSorted(s, init, key);
      var prefix := InsertAll(s, init, key);
      InsertSortedIsSorted(prefix, last, key);
      InsertedMultiset(prefix, UpperBound(prefix, last, key), last);
      assert xs == init + [last];
    }
  }

  /**
   * `AddItemsSorted`: inserts each item of the array in turn. On an ascending
   * list the result is ascending, `|items|` longer, and its multiset grows by
   * exactly the items.
   */
  method AddItemsSorted<T>(list: List<T>, items: seq<T>, key: T -> int)
    modifies list
    ensures |list.elements| == |old(list.elements)| + |items|
    ensures Sorted(old(list.elements), key) ==> list.elements == InsertAll(old(list.elements), items, key)
    ensures Sorted(old(list.elements), key) ==> Sorted(list.elements, key)
    ensures multiset(list.elements) == multiset(old(list.elements)) + multiset(items)
  {
    for i := 0 to |items|
      invariant |list.elements| == |old(list.elements)| + i
      invariant Sorted(old(list.elements), key) ==> list.elements == InsertAll(old(list.elements), items[..i], key)
      invariant multiset(list.elements) == multiset(old(list.elements)) + multiset(items[..i])
    {
      InsertAllStep(old(list.elements), items, i, key);
      if Sorted(old(list.elements), key) {
        InsertAllIsSorted(old(list.elements), items[..i], key);
      }
      AddItemSorted(list, items[i], key);
    }
    assert items[..|items|] == items;
    if Sorted(old(list.elements), key) {
      InsertAllIsSorted(old(list.elements), items, key);
    }
  }

  lemma InsertAllStep<T>(s: seq<T>, xs: seq<T>, i: nat, key: T -> int)
    requires i < |xs|
    ensures InsertAll(s, xs[..i + 1], key) == InsertSorted(InsertAll(s, xs[..i], key), xs[i], key)
    ensures multiset(xs[..i + 1]) == multiset(xs[..i]) + multiset{xs[i]}
  {
    assert xs[..i + 1][..i] == xs[..i];
    assert xs[..i + 1] == xs[..i] + [xs[i]];
  }

  datatype ChopError = DivideByZeroException

  /** Consecutive chunks of `n` elements, the last one possibly shorter. */
  function Chunks<T>(s: seq<T>, n: nat): seq<seq<T>>
    requires n > 0
    decreases |s|
  {
    if s == [] then [] else if |s| <= n then [s] else [s[..n]] + Chunks(s[n..], n)
  }

  function Flatten<T>(ss: seq<seq<T>>): seq<T>
  {
    if ss == [] then [] else ss[0] + Flatten(ss[1..])
  }

  /** C#'s `/` on `int`, which truncates towards zero. */
  function TruncDiv(a: int, b: int): int
    requires b != 0
  {
    if (a >= 0) == (b > 0) then (if a >= 0 then a / b else (-a) / (-b))
    else -((if a >= 0 then a else -a) / (if b > 0 then b else -b))
  }

  function Abs(a: int): nat
  {
    if a < 0 then -a else a
  }

  /**
   * `Chop`: groups the elements by `index / length` (C#'s truncating division),
   * keeping groups in order of first appearance. A zero `length` divides by
   * zero as soon as there is an element; a negative `length` groups exactly as
   * its absolute value does.
   */
  function Chop<T>(list: seq<T>, length: int): (r: Result<seq<seq<T>>, ChopError>)
    ensures r.Failure? <==> length == 0 && list != []
  {
    if length == 0 then
      if list == [] then Success([]) else Failure(DivideByZeroException)
    else Success(Chunks(list, Abs(length)))
  }

  /** The chunks concatenate back to the list; all have `n` elements except the last, which has 1 to `n`. */
  lemma {:induction false} ChunksShape<T>(s: seq<T>, n: nat)
    requires n > 0
    ensures Flatten(Chunks(s, n)) == s
    ensures Chunks(s, n) == [] <==> s == []
    ensures forall c :: 0 <= c < |Chunks(s, n)| - 1 ==> |Chunks(s, n)[c]| == n
    ensures Chunks(s, n) != [] ==> 0 < |Chunks(s, n)[|Chunks(s, n)| - 1]| <= n
    decreases |s|
  {
    if s != [] && |s| > n {
      ChunksShape(s[n..], n);
      assert s == s[..n] + s[n..];
      var rest := Chunks(s[n..], n);
      assert Chunks(s, n) == [s[..n]] + rest;
      assert Flatten([s[..n]] + rest) == s[..n] + Flatten(rest) by {
        assert ([s[..n]] + rest)[1..] == rest;
      }
    } else if s != [] {
      assert Flatten([s]) == s + Flatten([]);
    }
  }

  /** Element `c * n + p` (with `p < n`) sits in chunk `c` at position `p`. */
  lemma {:induction false} ChunkAt<T>(s: seq<T>, n: nat, c: nat, p: nat)
    requires n > 0 && p < n && c * n + p < |s|
    ensures c < |Chunks(s, n)| && p < |Chunks(s, n)[c]|
    ensures Chunks(s, n)[c][p] == s[c * n + p]
    decreases c
  {
    if c == 0 {
      assert p < |s|;
      if |s| > n {
        assert Chunks(s, n)[0] == s[..n];
      }
    } else {
      var i := c * n + p;
      assert (c - 1) * n + p == i - n by {
        assert c * n == (c - 1) * n + n;
      }
      assert |s| > n;
      assert Chunks(s, n) == [s[..n]] + Chunks(s[n..], n);
      ChunkAt(s[n..], n, c - 1, p);
      assert s[n..][i - n] == s[i];
    }
  }

  /**
   * Index `i` is grouped under the key `i / length` (C#'s truncating division);
   * its chunk is the one numbered by the key's absolute value, at position
   * `i % |length|`: the grouping that the source writes with `GroupBy`.
   */
  lemma ChopGroupsByIndex<T>(list: seq<T>, length: int, i: nat)
    requires length != 0 && i < |list|
    ensures Chop(list, length).Success?
    ensures Abs(TruncDiv(i, length)) == i / Abs(length)
    ensures var chunks := Chop(list, length).value; var c := Abs(TruncDiv(i, length)); var p := i % Abs(length);
      c < |chunks| && p < |chunks[c]| && chunks[c][p] == list[i]
  {
    var m := Abs(length);
    assert i == (i / m) * m + i % m;
    ChunkAt(list, m, i / m, i % m);
  }
}
