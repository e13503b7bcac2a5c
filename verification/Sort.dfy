/** Heapsort in place and binary search for any comparison function
    (Project2/src/lib/stdlib.c).  Indexes into the heap are 1-based, as in the source. */
module Sort {
  import opened Nonlinear
  import opened Bitmap

  /** What strcmp-style comparison functions promise: a total preorder. */
  ghost predicate TotalPreorder<T(!new)>(cmp: (T, T) -> int)
  {
    && (forall x, y :: cmp(x, y) < 0 <==> cmp(y, x) > 0)
    && forall x, y, z {:trigger cmp(x, y), cmp(y, z)} :: cmp(x, y) <= 0 && cmp(y, z) <= 0 ==> cmp(x, z) <= 0
  }

  ghost predicate Sorted<T>(s: seq<T>, cmp: (T, T) -> int)
  {
    forall i, j | 0 <= i < j < |s| :: cmp(s[i], s[j]) <= 0
  }

  /** No element of `low` compares above an element of `high`. */
  ghost predicate Below<T>(low: seq<T>, high: seq<T>, cmp: (T, T) -> int)
  {
    forall i, j | 0 <= i < |low| && 0 <= j < |high| :: cmp(low[i], high[j]) <= 0
  }

  // ----- heaps

  /** Node k of the heap does not compare above its parent. */
  predicate Ordered<T>(s: seq<T>, cmp: (T, T) -> int, k: nat)
    requires 2 <= k <= |s|
  {
    cmp(s[k / 2 - 1], s[k - 1]) >= 0
  }

  /** The first cnt elements form a heap from node `from` on. */
  ghost predicate Heap<T>(s: seq<T>, cmp: (T, T) -> int, from: nat, cnt: nat)
    requires cnt <= |s|
  {
    forall k | 2 <= k <= cnt && k / 2 >= from :: Ordered(s, cmp, k)
  }

  /** The same but for the children of node j, which their grandparent dominates. */
  ghost predicate HeapExcept<T>(s: seq<T>, cmp: (T, T) -> int, from: nat, cnt: nat, j: nat)
    requires cnt <= |s|
  {
    && (forall k | 2 <= k <= cnt && k / 2 >= from && k / 2 != j :: Ordered(s, cmp, k))
    && (j / 2 >= from && j / 2 >= 1 ==> forall k | 2 <= k <= cnt && k / 2 == j :: cmp(s[j / 2 - 1], s[k - 1]) >= 0)
  }

  function Swapped<T>(s: seq<T>, a: nat, b: nat): (r: seq<T>)
    requires 1 <= a <= |s| && 1 <= b <= |s|
    ensures |r| == |s| && r[a - 1] == s[b - 1] && r[b - 1] == s[a - 1]
    ensures forall k | 0 <= k < |s| && k != a - 1 && k != b - 1 :: r[k] == s[k]
  {
    s[a - 1 := s[b - 1]][b - 1 := s[a - 1]]
  }

  lemma SwappedPermutes<T>(s: seq<T>, a: nat, b: nat, cnt: nat)
    requires 1 <= a <= cnt && 1 <= b <= cnt && cnt <= |s|
    ensures multiset(Swapped(s, a, b)[..cnt]) == multiset(s[..cnt])
    ensures Swapped(s, a, b)[cnt..] == s[cnt..]
  {
    var t, t' := s[..cnt], Swapped(s, a, b)[..cnt];
    assert t' == t[a - 1 := t[b - 1]][b - 1 := t[a - 1]];
  }

  /** Swapping node j with its greatest child moves the exception down. */
  lemma SiftStep<T(!new)>(s: seq<T>, cmp: (T, T) -> int, from: nat, cnt: nat, j: nat, max: nat)
    requires TotalPreorder(cmp) && cnt <= |s| && 1 <= from <= j <= cnt && HeapExcept(s, cmp, from, cnt, j)
    requires max <= cnt && max / 2 == j && cmp(s[max - 1], s[j - 1]) > 0
    requires forall k | 2 <= k <= cnt && k / 2 == j :: cmp(s[max - 1], s[k - 1]) >= 0
    ensures HeapExcept(Swapped(s, j, max), cmp, from, cnt, max)
  {
    var s' := Swapped(s, j, max);
    forall k | 2 <= k <= cnt && k / 2 >= from && k / 2 != max ensures Ordered(s', cmp, k) {
      if k / 2 != j && k != j {
        assert Ordered(s, cmp, k);
      }
    }
    forall k | 2 <= k <= cnt && k / 2 == max ensures cmp(s'[max / 2 - 1], s'[k - 1]) >= 0 {
      assert Ordered(s, cmp, k);
    }
  }

  /** The root of a heap is a greatest element. */
  lemma {:induction false} RootIsGreatest<T(!new)>(s: seq<T>, cmp: (T, T) -> int, cnt: nat, k: nat)
    requires TotalPreorder(cmp) && cnt <= |s| && Heap(s, cmp, 1, cnt) && 1 <= k <= cnt
    ensures cmp(s[k - 1], s[0]) <= 0
  {
    if k == 1 {
      assert cmp(s[0], s[0]) < 0 <==> cmp(s[0], s[0]) > 0;
    } else {
      assert Ordered(s, cmp, k);
      RootIsGreatest(s, cmp, cnt, k / 2);
    }
  }

  // ----- the cost of one sift

  /** Levels below node i in a heap of cnt nodes. */
  function Depth(i: nat, cnt: nat): nat
    decreases cnt - i
  {
    if i == 0 || 2 * i > cnt then 0 else 1 + Depth(2 * i, cnt)
  }

  lemma {:induction false} DeeperFromAbove(i: nat, j: nat, cnt: nat)
    requires 1 <= i <= j
    ensures Depth(j, cnt) <= Depth(i, cnt)
    decreases cnt - j
  {
    if 2 * j <= cnt {
      DeeperFromAbove(2 * i, 2 * j, cnt);
    }
  }

  /** Depth(1, cnt) is the floor of the binary logarithm of cnt. */
  lemma {:induction false} DepthIsLog(i: nat, cnt: nat)
    requires 1 <= i <= cnt
    ensures i * Pow2(Depth(i, cnt)) <= cnt < i * Pow2(Depth(i, cnt) + 1)
    decreases cnt - i
  {
    if 2 * i <= cnt {
      DepthIsLog(2 * i, cnt);
      var d := Depth(2 * i, cnt);
      assert 2 * i * Pow2(d) == i * (2 * Pow2(d));
      assert 2 * i * Pow2(d + 1) == i * (2 * Pow2(d + 1));
    }
  }

  lemma {:induction false} DepthGrows(i: nat, cnt: nat, cnt': nat)
    requires cnt <= cnt'
    ensures Depth(i, cnt) <= Depth(i, cnt')
    decreases cnt - i
  {
    if i != 0 && 2 * i <= cnt {
      DepthGrows(2 * i, cnt, cnt');
    }
  }

  // ----- the program

  method DoSwap<T>(a: array<T>, x: nat, y: nat)
    requires 1 <= x <= a.Length && 1 <= y <= a.Length
    modifies a
    ensures a[..] == Swapped(old(a[..]), x, y)
  {
    a[x - 1], a[y - 1] := a[y - 1], a[x - 1];
  }

  /** Floats node i0 down the heap of cnt nodes, with at most two comparisons a level. */
  method Heapify<T(!new)>(a: array<T>, i0: nat, cnt: nat, cmp: (T, T) -> int) returns (ghost comparisons: nat)
    requires TotalPreorder(cmp) && 1 <= i0 <= cnt <= a.Length && Heap(a[..], cmp, i0 + 1, cnt)
    modifies a
    ensures Heap(a[..], cmp, i0, cnt)
    ensures multiset(a[..cnt]) == old(multiset(a[..cnt])) && a[cnt..] == old(a[cnt..])
    ensures comparisons <= 2 * Depth(i0, cnt)
  {
    var i := i0;
    comparisons := 0;
    while true
      invariant i0 <= i <= cnt && HeapExcept(a[..], cmp, i0, cnt, i)
      invariant multiset(a[..cnt]) == old(multiset(a[..cnt])) && a[cnt..] == old(a[cnt..])
      invariant comparisons + 2 * Depth(i, cnt) <= 2 * Depth(i0, cnt)
      decreases cnt - i
    {
      var max, used := GreatestOfThree(a, i, cnt, cmp);
      comparisons := comparisons + used;
      if max == i {
        return;
      }
      ghost var s := a[..];
      SiftStep(s, cmp, i0, cnt, i, max);
      SwappedPermutes(s, i, max, cnt);
      DeeperFromAbove(2 * i, max, cnt);
      DoSwap(a, i, max);
      i := max;
    }
  }

  /** The index of a greatest element among node i and its children. */
  method GreatestOfThree<T(!new)>(a: array<T>, i: nat, cnt: nat, cmp: (T, T) -> int) returns (max: nat, ghost comparisons: nat)
    requires TotalPreorder(cmp) && 1 <= i <= cnt <= a.Length
    ensures max == i || (max <= cnt && max / 2 == i && cmp(a[max - 1], a[i - 1]) > 0)
    ensures forall k | 2 <= k <= cnt && k / 2 == i :: cmp(a[max - 1], a[k - 1]) >= 0
    ensures comparisons <= if 2 * i <= cnt then 2 else 0
  {
    var left, right := 2 * i, 2 * i + 1;
    max, comparisons := i, 0;
    if left <= cnt {
      comparisons := comparisons + 1;
      if cmp(a[left - 1], a[max - 1]) > 0 {
        max := left;
      }
    }
    if right <= cnt {
      comparisons := comparisons + 1;
      if cmp(a[right - 1], a[max - 1]) > 0 {
        max := right;
      }
    }
    assert forall k | 2 <= k <= cnt && k / 2 == i :: k == left || k == right;
    assert cmp(a[max - 1], a[max - 1]) < 0 <==> cmp(a[max - 1], a[max - 1]) > 0;
  }

  lemma BelowPermuted<T>(low: seq<T>, low': seq<T>, high: seq<T>, cmp: (T, T) -> int)
    requires Below(low, high, cmp) && multiset(low') == multiset(low)
    ensures Below(low', high, cmp)
  {
    forall i, j | 0 <= i < |low'| && 0 <= j < |high| ensures cmp(low'[i], high[j]) <= 0 {
      assert low'[i] in multiset(low');
      assert low'[i] in low;
    }
  }

  /** The loop invariant of the second phase: a heap, then greater elements in order. */
  ghost predicate HeapThenSorted<T>(s: seq<T>, cmp: (T, T) -> int, i: nat)
    requires i <= |s|
  {
    Heap(s, cmp, 1, i) && Sorted(s[i..], cmp) && Below(s[..i], s[i..], cmp)
  }

  /** Moving the root of the heap to its end extends the sorted part by one element. */
  lemma ExtractGreatest<T(!new)>(s: seq<T>, cmp: (T, T) -> int, i: nat)
    requires TotalPreorder(cmp) && 2 <= i <= |s| && HeapThenSorted(s, cmp, i)
    ensures var s' := Swapped(s, 1, i);
      Heap(s', cmp, 2, i - 1) && Sorted(s'[i - 1..], cmp) && Below(s'[..i - 1], s'[i - 1..], cmp)
  {
    var s' := Swapped(s, 1, i);
    assert s'[i - 1..] == [s[0]] + s[i..];
    assert s[0] == s[..i][0];
    forall k | 2 <= k <= i - 1 && k / 2 >= 2 ensures Ordered(s', cmp, k) {
      assert Ordered(s, cmp, k);
    }
    ExtractBelow(s, cmp, i, s'[..i - 1]);
  }

  lemma ExtractBelow<T(!new)>(s: seq<T>, cmp: (T, T) -> int, i: nat, low: seq<T>)
    requires TotalPreorder(cmp) && 2 <= i <= |s| && Heap(s, cmp, 1, i) && Below(s[..i], s[i..], cmp)
    requires low == Swapped(s, 1, i)[..i - 1]
    ensures Below(low, [s[0]] + s[i..], cmp)
  {
    forall x, y | 0 <= x < |low| && 0 <= y <= |s| - i ensures cmp(low[x], ([s[0]] + s[i..])[y]) <= 0 {
      var x' := if x == 0 then i - 1 else x;
      assert low[x] == s[..i][x'];
      RootIsGreatest(s, cmp, i, x' + 1);
    }
  }

  /** Sorts in place with at most 3 n log2 n comparisons. */
  method Sort<T(!new)>(a: array<T>, cmp: (T, T) -> int) returns (ghost comparisons: nat)
    requires TotalPreorder(cmp)
    modifies a
    ensures Sorted(a[..], cmp) && multiset(a[..]) == old(multiset(a[..]))
    ensures comparisons <= 3 * a.Length * Depth(1, a.Length)
  {
    comparisons := BuildHeap(a, cmp);
    comparisons := SortHeap(a, cmp, comparisons);
    BudgetInAll(a.Length);
  }

  /** The first loop of the sort. */
  method BuildHeap<T(!new)>(a: array<T>, cmp: (T, T) -> int) returns (ghost comparisons: nat)
    requires TotalPreorder(cmp)
    modifies a
    ensures Heap(a[..], cmp, 1, a.Length) && multiset(a[..]) == old(multiset(a[..]))
    ensures comparisons <= Budget(a.Length / 2, a.Length)
  {
    var cnt := a.Length;
    assert a[..cnt] == a[..];
    ghost var sifts := 0;
    comparisons := 0;
    var i := cnt / 2;
    while i > 0
      invariant 0 <= i <= cnt / 2 && Heap(a[..], cmp, i + 1, cnt)
      invariant multiset(a[..cnt]) == old(multiset(a[..]))
      invariant sifts + i == cnt / 2 && comparisons <= Budget(sifts, cnt)
    {
      var used := Heapify(a, i, cnt, cmp);
      DeeperFromAbove(1, i, cnt);
      BudgetStep(sifts, cnt);
      comparisons, sifts, i := comparisons + used, sifts + 1, i - 1;
    }
    assert a[..cnt] == a[..];
  }

  /** What so many sifts of a heap of cnt nodes may cost. */
  ghost function Budget(sifts: nat, cnt: nat): nat
  {
    sifts * (2 * Depth(1, cnt))
  }

  lemma BudgetStep(sifts: nat, cnt: nat)
    ensures Budget(sifts + 1, cnt) == Budget(sifts, cnt) + 2 * Depth(1, cnt)
  {
    MulAdd(2 * Depth(1, cnt), sifts, 1);
  }

  lemma BudgetGrows(sifts: nat, sifts': nat, cnt: nat)
    requires sifts <= sifts'
    ensures Budget(sifts, cnt) <= Budget(sifts', cnt)
  {
    MulLe(sifts, sifts', 2 * Depth(1, cnt));
  }

  lemma BudgetInAll(cnt: nat)
    ensures Budget(cnt / 2 + cnt, cnt) <= 3 * cnt * Depth(1, cnt)
  {
    var d := Depth(1, cnt);
    MulAssoc(cnt / 2 + cnt, 2, d);
    MulLe(2 * (cnt / 2 + cnt), 3 * cnt, d);
  }

  /** The second loop of the sort. */
  method SortHeap<T(!new)>(a: array<T>, cmp: (T, T) -> int, ghost before: nat) returns (ghost comparisons: nat)
    requires TotalPreorder(cmp) && Heap(a[..], cmp, 1, a.Length)
    requires before <= Budget(a.Length / 2, a.Length)
    modifies a
    ensures Sorted(a[..], cmp) && multiset(a[..]) == old(multiset(a[..]))
    ensures comparisons <= Budget(a.Length / 2 + a.Length, a.Length)
  {
    var cnt := a.Length;
    ghost var sifts := cnt / 2;
    comparisons := before;
    var i := cnt;
    while i > 1
      invariant 0 <= i <= cnt && sifts + i == cnt / 2 + cnt && comparisons <= Budget(sifts, cnt)
      invariant HeapThenSorted(a[..], cmp, i)
      invariant multiset(a[..]) == old(multiset(a[..]))
    {
      var used := ExtractStep(a, cmp, i);
      BudgetStep(sifts, cnt);
      comparisons, sifts, i := comparisons + used, sifts + 1, i - 1;
    }
    BudgetGrows(sifts, cnt / 2 + cnt, cnt);
    SortedWhole(a[..], cmp, i);
  }

  lemma SortedWhole<T>(s: seq<T>, cmp: (T, T) -> int, i: nat)
    requires i <= 1 && i <= |s| && HeapThenSorted(s, cmp, i)
    ensures Sorted(s, cmp)
  {
    forall x, y | 0 <= x < y < |s| ensures cmp(s[x], s[y]) <= 0 {
      if x < i {
        assert s[x] == s[..i][x] && s[y] == s[i..][y - i];
      } else {
        assert s[x] == s[i..][x - i] && s[y] == s[i..][y - i];
      }
    }
  }

  method ExtractStep<T(!new)>(a: array<T>, cmp: (T, T) -> int, i: nat) returns (ghost comparisons: nat)
    requires TotalPreorder(cmp) && 2 <= i <= a.Length
    requires HeapThenSorted(a[..], cmp, i)
    modifies a
    ensures HeapThenSorted(a[..], cmp, i - 1)
    ensures multiset(a[..]) == old(multiset(a[..]))
    ensures comparisons <= 2 * Depth(1, a.Length)
  {
    ghost var s := a[..];
    assert a[..i] == s[..i] && a[i..] == s[i..];
    ExtractGreatest(s, cmp, i);
    SwappedPermutes(s, 1, i, i);
    DoSwap(a, 1, i);
    ghost var s' := a[..];
    assert a[..i - 1] == s'[..i - 1] && a[i - 1..] == s'[i - 1..];
    comparisons := Heapify(a, 1, i - 1, cmp);
    DepthGrows(1, i - 1, a.Length);
    BelowPermuted(s'[..i - 1], a[..i - 1], s'[i - 1..], cmp);
    Joined(s, i);
    Joined(s', i);
    Joined(s', i - 1);
    Joined(a[..], i - 1);
    assert a[..][..i - 1] == a[..i - 1] && a[..][i - 1..] == a[i - 1..];
  }

  lemma Joined<T>(s: seq<T>, i: nat)
    requires i <= |s|
    ensures multiset(s) == multiset(s[..i]) + multiset(s[i..])
  {
    assert s == s[..i] + s[i..];
  }

  // ----- binary search

  /** Finds an element equal to the key exactly when a sorted array has one. */
  method BinarySearch<T(!new)>(key: T, a: array<T>, cmp: (T, T) -> int) returns (r: Option<nat>)
    requires TotalPreorder(cmp) && Sorted(a[..], cmp)
    ensures r.Some? ==> r.value < a.Length && cmp(key, a[r.value]) == 0
    ensures r.Some? <==> exists k :: 0 <= k < a.Length && cmp(key, a[k]) == 0
  {
    var first, last := 0, a.Length;
    while first < last
      invariant 0 <= first <= last <= a.Length
      invariant forall k | 0 <= k < first :: cmp(key, a[k]) > 0
      invariant forall k | last <= k < a.Length :: cmp(key, a[k]) < 0
    {
      var range := last - first;
      var middle := first + range / 2;
      var c := cmp(key, a[middle]);
      SameSide(a[..], key, cmp, middle);
      if c < 0 {
        last := middle;
      } else if c > 0 {
        first := middle + 1;
      } else {
        return Some(middle);
      }
    }
    r := None;
  }

  /** In a sorted array, what lies before an element below the key is below it too. */
  lemma SameSide<T(!new)>(s: seq<T>, key: T, cmp: (T, T) -> int, m: nat)
    requires TotalPreorder(cmp) && Sorted(s, cmp) && m < |s|
    ensures cmp(key, s[m]) > 0 ==> forall k | 0 <= k <= m :: cmp(key, s[k]) > 0
    ensures cmp(key, s[m]) < 0 ==> forall k | m <= k < |s| :: cmp(key, s[k]) < 0
  {
    forall k | 0 <= k < |s|
      ensures k <= m && cmp(key, s[m]) > 0 ==> cmp(key, s[k]) > 0
      ensures k >= m && cmp(key, s[m]) < 0 ==> cmp(key, s[k]) < 0
    {
      assert cmp(key, s[k]) <= 0 && cmp(s[k], s[m]) <= 0 ==> cmp(key, s[m]) <= 0;
      assert cmp(s[m], s[k]) <= 0 && cmp(s[k], key) <= 0 ==> cmp(s[m], key) <= 0;
    }
  }
}
