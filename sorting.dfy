/**
 * Order-related meaning of the queue's operations, stated on sequences of
 * node ids whose keys are the nodes' strings. Stability is stated over node
 * identity: for every key, the nodes carrying it keep their relative order.
 */
module Sorting {
  import opened CString
  import opened NodeSeq

  /** The string each element node carries (`element_t.value`), by node id. */
  type Values = map<int, Str>

  function Key(vals: Values, n: int): Str {
    if n in vals then vals[n] else []
  }

  /** Node x sorts no later than node y: `strcmp(x->value, y->value) <= 0`. */
  predicate Le(vals: Values, x: int, y: int) {
    StrCmp(Key(vals, x), Key(vals, y)) <= 0
  }

  /** Non-decreasing by strcmp. */
  ghost predicate Sorted(vals: Values, s: seq<int>) {
    forall i :: 0 <= i < |s| - 1 ==> Le(vals, s[i], s[i + 1])
  }

  /** Non-increasing by strcmp. */
  ghost predicate SortedDesc(vals: Values, s: seq<int>) {
    forall i :: 0 <= i < |s| - 1 ==> Le(vals, s[i + 1], s[i])
  }

  /** Strictly decreasing by strcmp: what `find_run` reverses. */
  ghost predicate StrictlyDesc(vals: Values, s: seq<int>) {
    forall i :: 0 <= i < |s| - 1 ==> StrCmp(Key(vals, s[i]), Key(vals, s[i + 1])) > 0
  }

  lemma LeRefl(vals: Values, x: int)
    ensures Le(vals, x, x)
  {
    StrCmpZero(Key(vals, x), Key(vals, x));
  }

  lemma LeTrans(vals: Values, x: int, y: int, z: int)
    requires Le(vals, x, y) && Le(vals, y, z)
    ensures Le(vals, x, z)
  {
    StrCmpTrans(Key(vals, x), Key(vals, y), Key(vals, z));
  }

  /** A sequence sorted pair by pair is sorted between any two positions. */
  lemma {:induction false} SortedAll(vals: Values, s: seq<int>)
    requires Sorted(vals, s)
    ensures forall i, j :: 0 <= i <= j < |s| ==> Le(vals, s[i], s[j])
  {
    if |s| >= 2 {
      var t := s[1..];
      SortedAll(vals, t);
      forall i, j | 0 <= i <= j < |s| ensures Le(vals, s[i], s[j]) {
        if i == j {
          LeRefl(vals, s[i]);
        } else if i == 0 {
          if j > 1 {
            assert Le(vals, t[0], t[j - 1]);
            LeTrans(vals, s[0], s[1], s[j]);
          }
        } else {
          assert Le(vals, t[i - 1], t[j - 1]);
        }
      }
    } else if |s| == 1 {
      LeRefl(vals, s[0]);
    }
  }

  // ---------------------------------------------------------------------------
  // Two-way merge

  /**
   * The stable merge of two orders: on equal strings the node of `a` is taken
   * first. `merge` and `merge_final` in timsort.c take `a` when
   * `tim_compare(a, b) <= 0`; `q_merge_two(list1, list2)` takes list1 only
   * when strictly smaller, so it is `Merge(list2, list1)`.
   */
  function Merge(vals: Values, a: seq<int>, b: seq<int>): (r: seq<int>)
    ensures |r| == |a| + |b|
    decreases |a| + |b|
  {
    if a == [] then b
    else if b == [] then a
    else if Le(vals, a[0], b[0]) then [a[0]] + Merge(vals, a[1..], b)
    else [b[0]] + Merge(vals, a, b[1..])
  }

  /** A merge step that takes the head of b, which sorts strictly before the head of a. */
  lemma MergeTakeSecond(vals: Values, a: seq<int>, b: seq<int>)
    requires a != [] && b != [] && StrCmp(Key(vals, b[0]), Key(vals, a[0])) < 0
    ensures Merge(vals, a, b) == [b[0]] + Merge(vals, a, b[1..])
  {
    StrCmpFlip(Key(vals, b[0]), Key(vals, a[0]));
  }

  /** Merging with an empty side leaves the other side as it is. */
  lemma MergeEmpty(vals: Values, a: seq<int>, b: seq<int>)
    requires a == [] || b == []
    ensures Merge(vals, a, b) == a + b
  {
  }

  /** Merge loses and invents no node. */
  lemma {:induction false} MergePerm(vals: Values, a: seq<int>, b: seq<int>)
    ensures multiset(Merge(vals, a, b)) == multiset(a) + multiset(b)
    decreases |a| + |b|
  {
    if a != [] && b != [] {
      if Le(vals, a[0], b[0]) {
        MergePerm(vals, a[1..], b);
        assert multiset(a) == multiset([a[0]]) + multiset(a[1..]) by {
          assert a == [a[0]] + a[1..];
        }
        assert multiset(Merge(vals, a, b)) == multiset([a[0]]) + multiset(Merge(vals, a[1..], b));
      } else {
        MergePerm(vals, a, b[1..]);
        assert multiset(b) == multiset([b[0]]) + multiset(b[1..]) by {
          assert b == [b[0]] + b[1..];
        }
        assert multiset(Merge(vals, a, b)) == multiset([b[0]]) + multiset(Merge(vals, a, b[1..]));
      }
    }
  }

  /** Merging two sorted orders gives a sorted order. */
  lemma {:induction false} MergeSorted(vals: Values, a: seq<int>, b: seq<int>)
    requires Sorted(vals, a) && Sorted(vals, b)
    ensures Sorted(vals, Merge(vals, a, b))
    decreases |a| + |b|
  {
    if a != [] && b != [] {
      if Le(vals, a[0], b[0]) {
        var m := Merge(vals, a[1..], b);
        MergeSorted(vals, a[1..], b);
        assert Le(vals, a[0], m[0]) by {
          if a[1..] != [] && Le(vals, a[1], b[0]) {
            assert m[0] == a[1];
          } else {
            assert m[0] == b[0];
          }
        }
      } else {
        var m := Merge(vals, a, b[1..]);
        MergeSorted(vals, a, b[1..]);
        StrCmpFlip(Key(vals, a[0]), Key(vals, b[0]));
        assert Le(vals, b[0], m[0]) by {
          if b[1..] != [] && !Le(vals, a[0], b[1]) {
            assert m[0] == b[1];
          } else {
            assert m[0] == a[0];
          }
        }
      }
    }
  }

  // ---------------------------------------------------------------------------
  // Stability, over node identity

  /** The nodes of s that carry the string k, in their order in s. */
  function WithKey(vals: Values, s: seq<int>, k: Str): (r: seq<int>)
  {
    if s == [] then []
    else (if Key(vals, s[0]) == k then [s[0]] else []) + WithKey(vals, s[1..], k)
  }

  /** r holds, for every string, exactly the nodes of s carrying it, in the same order. */
  ghost predicate Stable(vals: Values, r: seq<int>, s: seq<int>) {
    forall k :: WithKey(vals, r, k) == WithKey(vals, s, k)
  }

  /** r is the stable sort of s. */
  ghost predicate StableSortOf(vals: Values, r: seq<int>, s: seq<int>) {
    Sorted(vals, r) && Stable(vals, r, s)
  }

  lemma {:induction false} WithKeyConcat(vals: Values, a: seq<int>, b: seq<int>, k: Str)
    ensures WithKey(vals, a + b, k) == WithKey(vals, a, k) + WithKey(vals, b, k)
  {
    if a != [] {
      assert a == [a[0]] + a[1..] && a + b == [a[0]] + (a[1..] + b);
      WithKeyConcat(vals, a[1..], b, k);
      WithKeyCons(vals, a[0], a[1..] + b, k);
      WithKeyCons(vals, a[0], a[1..], k);
    } else {
      assert a + b == b;
    }
  }

  /** The selected nodes are nodes of s that carry k. */
  lemma {:induction false} WithKeyMembers(vals: Values, s: seq<int>, k: Str)
    ensures forall i :: 0 <= i < |WithKey(vals, s, k)| ==>
      WithKey(vals, s, k)[i] in s && Key(vals, WithKey(vals, s, k)[i]) == k
  {
    if s != [] {
      WithKeyMembers(vals, s[1..], k);
    }
  }

  /** The first node of s is the first one selected by its own string. */
  lemma WithKeyFirst(vals: Values, s: seq<int>)
    requires s != []
    ensures WithKey(vals, s, Key(vals, s[0])) == [s[0]] + WithKey(vals, s[1..], Key(vals, s[0]))
  {
  }

  /** If no node of s carries k, selecting k gives nothing. */
  lemma {:induction false} WithKeyNone(vals: Values, s: seq<int>, k: Str)
    requires forall i :: 0 <= i < |s| ==> Key(vals, s[i]) != k
    ensures WithKey(vals, s, k) == []
  {
    if s != [] {
      assert Key(vals, s[0]) != k;
      WithKeyNone(vals, s[1..], k);
    }
  }

  /** Selecting k from an order with a given first node. */
  lemma WithKeyCons(vals: Values, x: int, s: seq<int>, k: Str)
    ensures WithKey(vals, [x] + s, k) == (if Key(vals, x) == k then [x] else []) + WithKey(vals, s, k)
  {
    assert ([x] + s)[0] == x && ([x] + s)[1..] == s;
  }

  /** Every node of a sorted order whose first string is above k is above k. */
  lemma SortedAbove(vals: Values, a: seq<int>, k: Str)
    requires Sorted(vals, a) && a != [] && StrCmp(k, Key(vals, a[0])) < 0
    ensures WithKey(vals, a, k) == []
  {
    SortedAll(vals, a);
    forall i | 0 <= i < |a| ensures Key(vals, a[i]) != k {
      StrCmpTrans(k, Key(vals, a[0]), Key(vals, a[i]));
      StrCmpZero(k, Key(vals, a[i]));
    }
    WithKeyNone(vals, a, k);
  }

  /** Putting one node in front of both sides of a per-string split. */
  lemma WithKeyConsConcat(vals: Values, x: int, a: seq<int>, b: seq<int>, m: seq<int>, k: Str)
    requires WithKey(vals, m, k) == WithKey(vals, a, k) + WithKey(vals, b, k)
    ensures WithKey(vals, [x] + m, k) == WithKey(vals, [x] + a, k) + WithKey(vals, b, k)
  {
    WithKeyCons(vals, x, m, k);
    WithKeyCons(vals, x, a, k);
    AppendAssoc(if Key(vals, x) == k then [x] else [], WithKey(vals, a, k), WithKey(vals, b, k));
  }

  /** Merge's step taking the first node of a keeps a's selected nodes in front. */
  lemma MergeWithKeyStepA(vals: Values, a: seq<int>, b: seq<int>, k: Str)
    requires a != [] && b != [] && Le(vals, a[0], b[0])
    requires WithKey(vals, Merge(vals, a[1..], b), k) == WithKey(vals, a[1..], k) + WithKey(vals, b, k)
    ensures WithKey(vals, Merge(vals, a, b), k) == WithKey(vals, a, k) + WithKey(vals, b, k)
  {
    WithKeyConsConcat(vals, a[0], a[1..], b, Merge(vals, a[1..], b), k);
    assert a == [a[0]] + a[1..];
  }

  /** Putting one node in front of the second side, when the first side has no node of its string. */
  lemma WithKeyConsSecond(vals: Values, x: int, a: seq<int>, b: seq<int>, m: seq<int>, k: Str)
    requires WithKey(vals, m, k) == WithKey(vals, a, k) + WithKey(vals, b, k)
    requires Key(vals, x) == k ==> WithKey(vals, a, k) == []
    ensures WithKey(vals, [x] + m, k) == WithKey(vals, a, k) + WithKey(vals, [x] + b, k)
  {
    WithKeyCons(vals, x, m, k);
    WithKeyCons(vals, x, b, k);
    var wa, wb := WithKey(vals, a, k), WithKey(vals, b, k);
    if Key(vals, x) == k {
      assert wa + wb == wb;
      assert wa + ([x] + wb) == [x] + wb;
    } else {
      assert [] + (wa + wb) == wa + wb;
      assert [] + wb == wb;
    }
  }

  /** Merge's step taking the first node of b: no node of a carries that node's string. */
  lemma MergeWithKeyStepB(vals: Values, a: seq<int>, b: seq<int>, k: Str)
    requires a != [] && b != [] && !Le(vals, a[0], b[0]) && Sorted(vals, a)
    requires WithKey(vals, Merge(vals, a, b[1..]), k) == WithKey(vals, a, k) + WithKey(vals, b[1..], k)
    ensures WithKey(vals, Merge(vals, a, b), k) == WithKey(vals, a, k) + WithKey(vals, b, k)
  {
    if Key(vals, b[0]) == k {
      StrCmpFlip(Key(vals, a[0]), k);
      SortedAbove(vals, a, k);
    }
    WithKeyConsSecond(vals, b[0], a, b[1..], Merge(vals, a, b[1..]), k);
    assert b == [b[0]] + b[1..];
  }

  /** Merge keeps, per string, the nodes of a before those of b. */
  lemma {:induction false} MergeWithKey(vals: Values, a: seq<int>, b: seq<int>, k: Str)
    requires Sorted(vals, a)
    ensures WithKey(vals, Merge(vals, a, b), k) == WithKey(vals, a, k) + WithKey(vals, b, k)
    decreases |a| + |b|
  {
    if a == [] {
    } else if b == [] {
      assert WithKey(vals, b, k) == [];
      assert WithKey(vals, a, k) + [] == WithKey(vals, a, k);
    } else if Le(vals, a[0], b[0]) {
      assert Sorted(vals, a[1..]);
      MergeWithKey(vals, a[1..], b, k);
      MergeWithKeyStepA(vals, a, b, k);
    } else {
      MergeWithKey(vals, a, b[1..], k);
      MergeWithKeyStepB(vals, a, b, k);
    }
  }

  /** Merging two sorted orders is their stable sort. */
  lemma MergeIsStableSort(vals: Values, a: seq<int>, b: seq<int>)
    requires Sorted(vals, a) && Sorted(vals, b)
    ensures StableSortOf(vals, Merge(vals, a, b), a + b)
  {
    MergeSorted(vals, a, b);
    forall k ensures WithKey(vals, Merge(vals, a, b), k) == WithKey(vals, a + b, k) {
      MergeWithKey(vals, a, b, k);
      WithKeyConcat(vals, a, b, k);
    }
  }

  // ---------------------------------------------------------------------------
  // Consequences of stability

  lemma {:induction false} CountByKey(vals: Values, s: seq<int>, x: int)
    ensures multiset(s)[x] == multiset(WithKey(vals, s, Key(vals, x)))[x]
  {
    if s != [] {
      var k, t := Key(vals, x), s[1..];
      var p := if Key(vals, s[0]) == k then [s[0]] else [];
      CountByKey(vals, t, x);
      assert multiset(s) == multiset([s[0]]) + multiset(t) by {
        assert s == [s[0]] + t;
      }
      assert multiset(WithKey(vals, s, k)) == multiset(p) + multiset(WithKey(vals, t, k));
      assert multiset(p)[x] == multiset([s[0]])[x];
    }
  }

  /** A stable rearrangement is a permutation. */
  lemma StablePerm(vals: Values, r: seq<int>, s: seq<int>)
    requires Stable(vals, r, s)
    ensures multiset(r) == multiset(s)
  {
    forall x ensures multiset(r)[x] == multiset(s)[x] {
      CountByKey(vals, r, x);
      CountByKey(vals, s, x);
    }
  }

  /** There is only one stable sort of an order. */
  lemma {:induction false} StableSortUnique(vals: Values, r1: seq<int>, r2: seq<int>)
    requires Sorted(vals, r1) && Sorted(vals, r2) && Stable(vals, r1, r2)
    ensures r1 == r2
  {
    if r1 == [] || r2 == [] {
      if r1 != [] {
        WithKeyFirst(vals, r1);
      }
      if r2 != [] {
        WithKeyFirst(vals, r2);
      }
    } else {
      var x, y := r1[0], r2[0];
      var kx, ky := Key(vals, x), Key(vals, y);
      SortedAll(vals, r1);
      SortedAll(vals, r2);
      WithKeyFirst(vals, r1);
      WithKeyFirst(vals, r2);
      WithKeyMembers(vals, r1, ky);
      WithKeyMembers(vals, r2, kx);
      assert Le(vals, y, x) by {
        var w := WithKey(vals, r2, kx);
        assert w[0] in r2;
        var j :| 0 <= j < |r2| && r2[j] == w[0];
        assert Le(vals, r2[0], r2[j]);
      }
      assert Le(vals, x, y) by {
        var w := WithKey(vals, r1, ky);
        assert w[0] in r1;
        var j :| 0 <= j < |r1| && r1[j] == w[0];
        assert Le(vals, r1[0], r1[j]);
      }
      StrCmpFlip(kx, ky);
      StrCmpZero(kx, ky);
      assert kx == ky;
      assert x == y by {
        assert WithKey(vals, r1, kx)[0] == x;
        assert WithKey(vals, r2, kx)[0] == y;
      }
      forall k ensures WithKey(vals, r1[1..], k) == WithKey(vals, r2[1..], k) {
        var p := if kx == k then [x] else [];
        WithKeyCons(vals, x, r1[1..], k);
        WithKeyCons(vals, y, r2[1..], k);
        assert r1 == [x] + r1[1..] && r2 == [y] + r2[1..];
        assert p + WithKey(vals, r1[1..], k) == p + WithKey(vals, r2[1..], k);
        assert (p + WithKey(vals, r1[1..], k))[|p|..] == WithKey(vals, r1[1..], k);
        assert (p + WithKey(vals, r2[1..], k))[|p|..] == WithKey(vals, r2[1..], k);
      }
      StableSortUnique(vals, r1[1..], r2[1..]);
      assert r1 == [x] + r1[1..] && r2 == [y] + r2[1..];
    }
  }

  // ---------------------------------------------------------------------------
  // The recursive merge sort of queue.c

  /**
   * The order `merge_sort` produces: the first floor(n/2) nodes (the half cut
   * off at the slow pointer) and the rest are sorted recursively, then merged
   * with the first half winning ties.
   */
  function MergeSortOrder(vals: Values, s: seq<int>): (r: seq<int>)
    ensures multiset(r) == multiset(s)
    decreases |s|
  {
    if |s| <= 1 then s
    else
      var h := |s| / 2;
      assert s == s[..h] + s[h..];
      MergePerm(vals, MergeSortOrder(vals, s[..h]), MergeSortOrder(vals, s[h..]));
      Merge(vals, MergeSortOrder(vals, s[..h]), MergeSortOrder(vals, s[h..]))
  }

  /** merge_sort is a stable sort. */
  lemma {:induction false} MergeSortIsStableSort(vals: Values, s: seq<int>)
    ensures StableSortOf(vals, MergeSortOrder(vals, s), s)
    decreases |s|
  {
    if |s| > 1 {
      var h := |s| / 2;
      var left, right := s[..h], s[h..];
      var l, r := MergeSortOrder(vals, left), MergeSortOrder(vals, right);
      MergeSortIsStableSort(vals, left);
      MergeSortIsStableSort(vals, right);
      MergeIsStableSort(vals, l, r);
      StableJoin(vals, Merge(vals, l, r), l, r, left, right);
      assert s == left + right;
    }
  }

  /** An order stable with respect to l + r is stable with respect to left + right when l and r are to left and right. */
  lemma StableJoin(vals: Values, m: seq<int>, l: seq<int>, r: seq<int>, left: seq<int>, right: seq<int>)
    requires Stable(vals, m, l + r) && Stable(vals, l, left) && Stable(vals, r, right)
    ensures Stable(vals, m, left + right)
  {
    forall k ensures WithKey(vals, m, k) == WithKey(vals, left + right, k) {
      WithKeyConcat(vals, l, r, k);
      WithKeyConcat(vals, left, right, k);
    }
  }

  /** Any stable sort of s is exactly the order merge_sort produces. */
  lemma StableSortIsMergeSortOrder(vals: Values, r: seq<int>, s: seq<int>)
    requires StableSortOf(vals, r, s)
    ensures r == MergeSortOrder(vals, s)
  {
    MergeSortIsStableSort(vals, s);
    StableSortUnique(vals, r, MergeSortOrder(vals, s));
  }

  /**
   * Merging the sorted orders of two consecutive stretches, the earlier one
   * winning ties, sorts their concatenation: how timsort's merges of adjacent
   * runs add up to one sort.
   */
  lemma MergeSortOrderConcat(vals: Values, a: seq<int>, b: seq<int>)
    ensures Merge(vals, MergeSortOrder(vals, a), MergeSortOrder(vals, b)) == MergeSortOrder(vals, a + b)
  {
    var l, r := MergeSortOrder(vals, a), MergeSortOrder(vals, b);
    MergeSortIsStableSort(vals, a);
    MergeSortIsStableSort(vals, b);
    MergeIsStableSort(vals, l, r);
    forall k ensures WithKey(vals, Merge(vals, l, r), k) == WithKey(vals, a + b, k) {
      WithKeyConcat(vals, l, r, k);
      WithKeyConcat(vals, a, b, k);
    }
    StableSortIsMergeSortOrder(vals, Merge(vals, l, r), a + b);
  }

  /** Sorting an already sorted order changes nothing. */
  lemma SortSortedIsIdentity(vals: Values, s: seq<int>)
    requires Sorted(vals, s)
    ensures MergeSortOrder(vals, s) == s
  {
    StableSortIsMergeSortOrder(vals, s, s);
  }

  /** Reading a non-decreasing order backwards gives a non-increasing one. */
  lemma ReverseSorted(vals: Values, s: seq<int>)
    ensures Sorted(vals, s) <==> SortedDesc(vals, Reverse(s))
  {
    var r := Reverse(s);
    if SortedDesc(vals, r) {
      forall i | 0 <= i < |s| - 1 ensures Le(vals, s[i], s[i + 1]) {
        assert r[|s| - 2 - i] == s[i + 1] && r[|s| - 1 - i] == s[i];
      }
    }
  }

  // ---------------------------------------------------------------------------
  // Strictly descending runs

  lemma {:induction false} StrictlyDescFirst(vals: Values, c: seq<int>, j: int)
    requires StrictlyDesc(vals, c) && 1 <= j < |c|
    ensures StrCmp(Key(vals, c[j]), Key(vals, c[0])) < 0
  {
    StrCmpFlip(Key(vals, c[0]), Key(vals, c[1]));
    if j > 1 {
      StrictlyDescFirst(vals, c[1..], j - 1);
      StrCmpTrans(Key(vals, c[j]), Key(vals, c[1]), Key(vals, c[0]));
    }
  }

  lemma {:induction false} StrictlyDescWithKey(vals: Values, c: seq<int>, k: Str)
    requires StrictlyDesc(vals, c)
    ensures |WithKey(vals, c, k)| <= 1
  {
    if c != [] {
      StrictlyDescWithKey(vals, c[1..], k);
      if Key(vals, c[0]) == k {
        forall j | 0 <= j < |c[1..]| ensures Key(vals, c[1..][j]) != k {
          StrictlyDescFirst(vals, c, j + 1);
          StrCmpZero(Key(vals, c[j + 1]), Key(vals, c[0]));
        }
        WithKeyNone(vals, c[1..], k);
      }
    }
  }

  lemma {:induction false} WithKeyReverse(vals: Values, c: seq<int>, k: Str)
    ensures WithKey(vals, Reverse(c), k) == Reverse(WithKey(vals, c, k))
  {
    if c != [] {
      WithKeyReverse(vals, c[1..], k);
      WithKeyConcat(vals, Reverse(c[1..]), [c[0]], k);
      WithKeyCons(vals, c[0], c[1..], k);
      assert c == [c[0]] + c[1..];
      var p := if Key(vals, c[0]) == k then [c[0]] else [];
      ReverseConcat(p, WithKey(vals, c[1..], k));
      assert Reverse(p) == p;
      assert WithKey(vals, [c[0]], k) == p;
    }
  }

  /** Reversing a strictly descending run sorts it and keeps it stable. */
  lemma StrictlyDescReversed(vals: Values, c: seq<int>)
    requires StrictlyDesc(vals, c)
    ensures StableSortOf(vals, Reverse(c), c)
  {
    var r := Reverse(c);
    forall i | 0 <= i < |r| - 1 ensures Le(vals, r[i], r[i + 1]) {
      StrCmpFlip(Key(vals, c[|c| - 2 - i]), Key(vals, c[|c| - 1 - i]));
    }
    forall k ensures WithKey(vals, r, k) == WithKey(vals, c, k) {
      WithKeyReverse(vals, c, k);
      StrictlyDescWithKey(vals, c, k);
    }
  }

  // ---------------------------------------------------------------------------
  // q_ascend / q_descend

  /**
   * Node x may stay in front of node y: for `q_ascend` when x <= y, for
   * `q_descend` when x >= y.
   */
  predicate Keeps(vals: Values, x: int, y: int, ascend: bool) {
    if ascend then Le(vals, x, y) else Le(vals, y, x)
  }

  lemma KeepsTrans(vals: Values, x: int, y: int, z: int, ascend: bool)
    requires Keeps(vals, x, y, ascend) && Keeps(vals, y, z, ascend)
    ensures Keeps(vals, x, z, ascend)
  {
    if ascend { LeTrans(vals, x, y, z); } else { LeTrans(vals, z, y, x); }
  }

  /** Every node may stay in front of its successor. */
  ghost predicate Ordered(vals: Values, s: seq<int>, ascend: bool) {
    forall i :: 0 <= i < |s| - 1 ==> Keeps(vals, s[i], s[i + 1], ascend)
  }

  /** x may stay in front of every node of `rest`. */
  ghost predicate Extremum(vals: Values, x: int, rest: seq<int>, ascend: bool) {
    forall i :: 0 <= i < |rest| ==> Keeps(vals, x, rest[i], ascend)
  }

  /**
   * The nodes `q_ascend` (ascend) or `q_descend` (not ascend) keep: those that
   * may stay in front of every node to their right, in their original order.
   */
  ghost function Survivors(vals: Values, s: seq<int>, ascend: bool): (r: seq<int>)
    ensures |r| <= |s|
    ensures forall i :: 0 <= i < |r| ==> r[i] in s
  {
    if s == [] then []
    else (if Extremum(vals, s[0], s[1..], ascend) then [s[0]] else []) + Survivors(vals, s[1..], ascend)
  }

  /**
   * Where each survivor stands in the input: the k-th survivor is the node at
   * position idx[k], and the positions strictly increase, so the survivors
   * keep their relative order (`list_del` only unlinks, it never reorders).
   */
  ghost function SurvivorIndices(vals: Values, s: seq<int>, ascend: bool): (idx: seq<int>)
    ensures |idx| == |Survivors(vals, s, ascend)|
    ensures forall k :: 0 <= k < |idx| ==> 0 <= idx[k] < |s| && s[idx[k]] == Survivors(vals, s, ascend)[k]
    ensures forall k, l :: 0 <= k < l < |idx| ==> idx[k] < idx[l]
  {
    if s == [] then []
    else
      var rest := SurvivorIndices(vals, s[1..], ascend);
      var shifted := Shifted(s, rest, Survivors(vals, s[1..], ascend));
      if Extremum(vals, s[0], s[1..], ascend) then
        assert Survivors(vals, s, ascend) == [s[0]] + Survivors(vals, s[1..], ascend);
        ConsIndex(s, shifted, Survivors(vals, s[1..], ascend));
        [0] + shifted
      else
        assert Survivors(vals, s, ascend) == Survivors(vals, s[1..], ascend);
        shifted
  }

  /** The positions in s[1..] of the nodes of t, as positions in s. */
  ghost function Shifted(s: seq<int>, rest: seq<int>, t: seq<int>): (idx: seq<int>)
    requires s != [] && |rest| == |t|
    requires forall k :: 0 <= k < |rest| ==> 0 <= rest[k] < |s| - 1 && s[1..][rest[k]] == t[k]
    requires forall k, l :: 0 <= k < l < |rest| ==> rest[k] < rest[l]
    ensures |idx| == |t|
    ensures forall k :: 0 <= k < |idx| ==> 1 <= idx[k] < |s| && s[idx[k]] == t[k]
    ensures forall k, l :: 0 <= k < l < |idx| ==> idx[k] < idx[l]
  {
    seq(|rest|, k requires 0 <= k < |rest| => rest[k] + 1)
  }

  /** Putting position 0 in front of positions of s[1..] keeps them increasing. */
  lemma ConsIndex(s: seq<int>, idx: seq<int>, t: seq<int>)
    requires s != [] && |idx| == |t|
    requires forall k :: 0 <= k < |idx| ==> 1 <= idx[k] < |s| && s[idx[k]] == t[k]
    requires forall k, l :: 0 <= k < l < |idx| ==> idx[k] < idx[l]
    ensures var r := [0] + idx; var u := [s[0]] + t;
      (forall k :: 0 <= k < |r| ==> 0 <= r[k] < |s| && s[r[k]] == u[k]) &&
      forall k, l :: 0 <= k < l < |r| ==> r[k] < r[l]
  {
    var r := [0] + idx;
    var u := [s[0]] + t;
    forall k | 0 <= k < |r| ensures 0 <= r[k] < |s| && s[r[k]] == u[k] {
      if k > 0 { assert r[k] == idx[k - 1] && u[k] == t[k - 1]; }
    }
    forall k, l | 0 <= k < l < |r| ensures r[k] < r[l] {
      assert r[l] == idx[l - 1];
      if k > 0 { assert r[k] == idx[k - 1]; }
    }
  }

  /** The survivors are ordered: non-decreasing for q_ascend, non-increasing for q_descend. */
  lemma {:induction false} SurvivorsOrdered(vals: Values, s: seq<int>, ascend: bool)
    ensures Ordered(vals, Survivors(vals, s, ascend), ascend)
  {
    if s != [] {
      var t := Survivors(vals, s[1..], ascend);
      SurvivorsOrdered(vals, s[1..], ascend);
      if Extremum(vals, s[0], s[1..], ascend) {
        assert Survivors(vals, s, ascend) == [s[0]] + t;
        if t != [] {
          ExtremumKeeps(vals, s[0], s[1..], t[0], ascend);
          OrderedCons(vals, s[0], t, ascend);
        }
      } else {
        assert Survivors(vals, s, ascend) == t;
      }
    }
  }

  /** A node that may stay in front of every node of rest may stay in front of any one of them. */
  lemma ExtremumKeeps(vals: Values, x: int, rest: seq<int>, y: int, ascend: bool)
    requires Extremum(vals, x, rest, ascend) && y in rest
    ensures Keeps(vals, x, y, ascend)
  {
    var j :| 0 <= j < |rest| && rest[j] == y;
  }

  /** A node that may stay in front of the first node of an ordered sequence extends it. */
  lemma OrderedCons(vals: Values, x: int, t: seq<int>, ascend: bool)
    requires Ordered(vals, t, ascend) && t != [] && Keeps(vals, x, t[0], ascend)
    ensures Ordered(vals, [x] + t, ascend)
  {
    var r := [x] + t;
    forall i | 0 <= i < |r| - 1 ensures Keeps(vals, r[i], r[i + 1], ascend) {
      if i == 0 {
        assert r[0] == x && r[1] == t[0];
      } else {
        assert r[i] == t[i - 1] && r[i + 1] == t[i];
      }
    }
  }

  /** The last node always survives. */
  lemma {:induction false} SurvivorsKeepLast(vals: Values, s: seq<int>, ascend: bool)
    requires s != []
    ensures var r := Survivors(vals, s, ascend); r != [] && r[|r| - 1] == s[|s| - 1]
  {
    if |s| == 1 {
      LeRefl(vals, s[0]);
    } else {
      SurvivorsKeepLast(vals, s[1..], ascend);
    }
  }

  /** A node survives exactly when it may stay in front of every node to its right. */
  lemma {:induction false} SurvivorsExactly(vals: Values, s: seq<int>, ascend: bool, i: int)
    requires Distinct(s) && 0 <= i < |s|
    ensures s[i] in Survivors(vals, s, ascend) <==> Extremum(vals, s[i], s[i + 1..], ascend)
  {
    var t := Survivors(vals, s[1..], ascend);
    assert Distinct(s[1..]) && s[0] !in s[1..] by {
      DistinctConcat([s[0]], s[1..]);
      assert s == [s[0]] + s[1..];
    }
    if i == 0 {
      assert s[0] !in t by {
        forall j | 0 <= j < |t| ensures t[j] != s[0] {
          assert t[j] in s[1..];
        }
      }
    } else {
      SurvivorsExactly(vals, s[1..], ascend, i - 1);
      assert s[1..][i - 1] == s[i] && s[1..][i..] == s[i + 1..];
      assert s[i] != s[0];
      var p := if Extremum(vals, s[0], s[1..], ascend) then [s[0]] else [];
      assert Survivors(vals, s, ascend) == p + t;
    }
  }

  /**
   * One step of the right-to-left sweep. `tmp` is the first survivor of the
   * suffix from position i and may stay in front of all of it; the node at
   * i - 1 survives exactly when it may stay in front of `tmp`.
   */
  lemma SurvivorsStep(vals: Values, s: seq<int>, i: int, tmp: int, ascend: bool)
    requires 1 <= i < |s|
    requires Survivors(vals, s[i..], ascend) != [] && Survivors(vals, s[i..], ascend)[0] == tmp
    requires forall j :: i <= j < |s| ==> Keeps(vals, tmp, s[j], ascend)
    ensures Keeps(vals, s[i - 1], tmp, ascend) ==>
      Survivors(vals, s[i - 1..], ascend) == [s[i - 1]] + Survivors(vals, s[i..], ascend) &&
      forall j :: i - 1 <= j < |s| ==> Keeps(vals, s[i - 1], s[j], ascend)
    ensures !Keeps(vals, s[i - 1], tmp, ascend) ==>
      Survivors(vals, s[i - 1..], ascend) == Survivors(vals, s[i..], ascend)
  {
    var x := s[i - 1];
    assert s[i - 1..][1..] == s[i..];
    assert tmp in s[i..];
    var jt :| i <= jt < |s| && s[jt] == tmp;
    if Keeps(vals, x, tmp, ascend) {
      forall j | i - 1 <= j < |s| ensures Keeps(vals, x, s[j], ascend) {
        if j >= i {
          KeepsTrans(vals, x, tmp, s[j], ascend);
        } else {
          LeRefl(vals, x);
        }
      }
      assert Extremum(vals, x, s[i..], ascend) by {
        forall k | 0 <= k < |s[i..]| ensures Keeps(vals, x, s[i..][k], ascend) {
          assert s[i..][k] == s[i + k];
        }
      }
    } else {
      assert s[i..][jt - i] == tmp;
    }
  }

  /** The sweep's starting point: the last node alone survives and may stay in front of itself. */
  lemma SurvivorsOfLast(vals: Values, s: seq<int>, ascend: bool)
    requires s != []
    ensures Survivors(vals, s[|s| - 1..], ascend) == [s[|s| - 1]]
    ensures Keeps(vals, s[|s| - 1], s[|s| - 1], ascend)
  {
    LeRefl(vals, s[|s| - 1]);
  }

  /** The sweep's queue with the survivors from i on, as an order. */
  lemma SweepDrop(vals: Values, s: seq<int>, i: int, ascend: bool)
    requires 1 <= i < |s|
    ensures Without(s[..i] + Survivors(vals, s[i..], ascend), i - 1) == s[..i - 1] + Survivors(vals, s[i..], ascend)
  {
    var c := s[..i] + Survivors(vals, s[i..], ascend);
    assert c[..i - 1] == s[..i - 1];
    assert c[i..] == Survivors(vals, s[i..], ascend);
  }

  /** Keeping the node before tmp: the sweep's order is unchanged, one position earlier. */
  lemma SweepKeep(vals: Values, s: seq<int>, i: int, ascend: bool)
    requires 1 <= i <= |s|
    ensures s[..i] + Survivors(vals, s[i..], ascend) == s[..i - 1] + ([s[i - 1]] + Survivors(vals, s[i..], ascend))
  {
    assert s[..i] == s[..i - 1] + [s[i - 1]];
  }
}
