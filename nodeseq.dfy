/**
 * Sequences of node ids: the forward order of a list. The reorderings that
 * `q_reverse` and `q_swap` perform are stated here as functions on orders.
 */
module NodeSeq {

  /** Concatenation is associative (stated once so that proofs can cite it). */
  lemma AppendAssoc(a: seq<int>, b: seq<int>, c: seq<int>)
    ensures a + (b + c) == (a + b) + c
  {
  }

  /** No node occurs twice in the order. */
  ghost predicate Distinct(s: seq<int>) {
    forall i, j :: 0 <= i < j < |s| ==> s[i] != s[j]
  }

  /** No node occurs in both orders. */
  ghost predicate Disjoint(a: seq<int>, b: seq<int>) {
    forall x :: x in a ==> x !in b
  }

  lemma DisjointSym(a: seq<int>, b: seq<int>)
    requires Disjoint(a, b)
    ensures Disjoint(b, a)
  {
  }

  lemma DistinctConcat(a: seq<int>, b: seq<int>)
    ensures Distinct(a + b) <==> Distinct(a) && Distinct(b) && Disjoint(a, b)
  {
    if Distinct(a + b) {
      forall i, j | 0 <= i < j < |a| ensures a[i] != a[j] {
        assert (a + b)[i] == a[i] && (a + b)[j] == a[j];
      }
      forall i, j | 0 <= i < j < |b| ensures b[i] != b[j] {
        assert (a + b)[|a| + i] == b[i] && (a + b)[|a| + j] == b[j];
      }
      forall i, j | 0 <= i < |a| && 0 <= j < |b| ensures a[i] != b[j] {
        assert (a + b)[i] == a[i] && (a + b)[|a| + j] == b[j];
      }
    }
    if Distinct(a) && Distinct(b) && Disjoint(a, b) {
      forall i, j | 0 <= i < j < |a + b| ensures (a + b)[i] != (a + b)[j] {
        if j < |a| {
        } else if i >= |a| {
          assert (a + b)[i] == b[i - |a|] && (a + b)[j] == b[j - |a|];
        } else {
          assert (a + b)[i] in a && (a + b)[j] == b[j - |a|];
        }
      }
    }
  }

  /** Distinctness is a statement about multiplicities only. */
  lemma {:induction false} DistinctCounts(s: seq<int>)
    ensures Distinct(s) <==> forall x :: multiset(s)[x] <= 1
  {
    if s != [] {
      var t := s[1..];
      assert s == [s[0]] + t;
      DistinctCounts(t);
      DistinctConcat([s[0]], t);
      if forall x :: multiset(s)[x] <= 1 {
        assert multiset(s)[s[0]] == multiset(t)[s[0]] + 1;
        forall x ensures multiset(t)[x] <= 1 {
          assert multiset(s)[x] >= multiset(t)[x];
        }
      }
    }
  }

  /** A permutation of an order without repetitions has none either. */
  lemma DistinctPerm(a: seq<int>, b: seq<int>)
    requires Distinct(a) && multiset(a) == multiset(b)
    ensures Distinct(b)
  {
    DistinctCounts(a);
    DistinctCounts(b);
  }

  /** s without its i-th node. */
  function Without(s: seq<int>, i: int): (t: seq<int>)
    requires 0 <= i < |s|
    ensures |t| == |s| - 1
    ensures forall j :: 0 <= j < |t| ==> t[j] == if j < i then s[j] else s[j + 1]
  {
    s[..i] + s[i + 1..]
  }

  /** s with x inserted so that it becomes the node at position j. */
  function Insert(s: seq<int>, j: int, x: int): (u: seq<int>)
    requires 0 <= j <= |s|
    ensures |u| == |s| + 1
    ensures forall k :: 0 <= k < |u| ==> u[k] == if k < j then s[k] else if k == j then x else s[k - 1]
  {
    s[..j] + [x] + s[j..]
  }

  /** Removing the first or the last node. */
  lemma WithoutEnds(s: seq<int>)
    requires s != []
    ensures Without(s, 0) == s[1..]
    ensures Without(s, |s| - 1) == s[..|s| - 1]
  {
    assert s[..0] == [];
    assert s[|s|..] == [];
  }

  /** In an order without repetitions, the node taken out is gone. */
  lemma WithoutDrops(s: seq<int>, i: int)
    requires Distinct(s) && 0 <= i < |s|
    ensures s[i] !in Without(s, i)
  {
    var w := Without(s, i);
    forall k | 0 <= k < |w| ensures w[k] != s[i] {
      assert w[k] == s[if k < i then k else k + 1];
    }
  }

  /** Inserting at the front or at the end. */
  lemma InsertEnds(s: seq<int>, x: int)
    ensures Insert(s, 0, x) == [x] + s
    ensures Insert(s, |s|, x) == s + [x]
  {
    assert s[..0] == [] && s[0..] == s;
    assert s[..|s|] == s && s[|s|..] == [];
  }

  /** The order read backwards: what `q_reverse` leaves. */
  function Reverse(s: seq<int>): (r: seq<int>)
    ensures |r| == |s|
    ensures forall i :: 0 <= i < |s| ==> r[i] == s[|s| - 1 - i]
  {
    if s == [] then [] else Reverse(s[1..]) + [s[0]]
  }

  lemma ReverseConcat(a: seq<int>, b: seq<int>)
    ensures Reverse(a + b) == Reverse(b) + Reverse(a)
  {
  }

  lemma ReverseTwice(s: seq<int>)
    ensures Reverse(Reverse(s)) == s
  {
  }

  lemma {:induction false} ReversePerm(s: seq<int>)
    ensures multiset(Reverse(s)) == multiset(s)
  {
    if s != [] {
      ReversePerm(s[1..]);
      assert s == [s[0]] + s[1..];
    }
  }

  /** Reversing the first k+1 nodes: the (k+1)-th goes to the front. */
  lemma ReverseSnoc(s: seq<int>, x: int)
    ensures Reverse(s + [x]) == [x] + Reverse(s)
  {
  }

  /** The position whose node lands at position i when pairs (1,2), (3,4), ... swap. */
  function Partner(i: nat, n: nat): (j: nat)
    requires i < n
    ensures j < n && (j == i <==> i == n - 1 && n % 2 == 1)
    ensures j != i ==> (j == i + 1 || j + 1 == i) && j / 2 == i / 2
  {
    if i % 2 == 1 then i - 1 else if i + 1 < n then i + 1 else i
  }

  /** The order after `q_swap`: adjacent pairs exchanged, an odd last node kept. */
  function SwapPairs(s: seq<int>): (r: seq<int>)
    ensures |r| == |s|
    ensures forall i :: 0 <= i < |s| ==> r[i] == s[Partner(i, |s|)]
  {
    if |s| < 2 then s else [s[1], s[0]] + SwapPairs(s[2..])
  }

  lemma SwapPairsTwice(s: seq<int>)
    ensures SwapPairs(SwapPairs(s)) == s
  {
  }

  lemma {:induction false} SwapPairsPerm(s: seq<int>)
    ensures multiset(SwapPairs(s)) == multiset(s)
  {
    if |s| >= 2 {
      SwapPairsPerm(s[2..]);
      assert s == [s[0], s[1]] + s[2..];
    }
  }

  /** Swapping a prefix of even length and then the next pair extends the swapped prefix. */
  lemma {:induction false} SwapPairsSnoc(s: seq<int>, x: int, y: int)
    requires |s| % 2 == 0
    ensures SwapPairs(s + [x, y]) == SwapPairs(s) + [y, x]
  {
    var u := s + [x, y];
    var l, p := SwapPairs(u), SwapPairs(s);
    var r := p + [y, x];
    forall k | 0 <= k < |l| ensures l[k] == r[k] {
      var j := Partner(k, |u|);
      assert l[k] == u[j];
      if k < |s| {
        assert j == Partner(k, |s|) && j < |s|;
        assert p[k] == s[j] && u[j] == s[j] && r[k] == p[k];
      } else if k == |s| {
        assert j == |s| + 1 && u[j] == y && r[k] == y;
      } else {
        assert j == |s| && u[j] == x && r[k] == x;
      }
    }
  }

  /** Swapping pairs from an even position on works on the two parts separately. */
  lemma {:induction false} SwapPairsSplit(s: seq<int>, i: int)
    requires 0 <= i <= |s| && i % 2 == 0
    ensures SwapPairs(s) == SwapPairs(s[..i]) + SwapPairs(s[i..])
    decreases i
  {
    if i == 0 {
      assert s[..0] == [] && s[0..] == s;
    } else {
      SwapPairsSplit(s[2..], i - 2);
      assert s[2..][..i - 2] == s[..i][2..];
      assert s[2..][i - 2..] == s[i..];
      AppendAssoc([s[1], s[0]], SwapPairs(s[..i][2..]), SwapPairs(s[i..]));
    }
  }

  /**
   * One step of `q_swap`: with the pairs before position i already swapped,
   * taking out s[i] and putting it back behind s[i + 1] swaps one more pair.
   */
  lemma SwapStep(s: seq<int>, i: int)
    requires 0 <= i && i + 1 < |s| && i % 2 == 0
    ensures Without(SwapPairs(s[..i]) + s[i..], i) == SwapPairs(s[..i]) + s[i + 1..]
    ensures Insert(SwapPairs(s[..i]) + s[i + 1..], i + 1, s[i]) == SwapPairs(s[..i + 2]) + s[i + 2..]
    ensures (SwapPairs(s[..i]) + s[i..])[i + 1] == s[i + 1]
    ensures |SwapPairs(s[..i + 2]) + s[i + 2..]| == |s| && (SwapPairs(s[..i + 2]) + s[i + 2..])[i + 1] == s[i]
    ensures i + 2 < |s| ==> (SwapPairs(s[..i + 2]) + s[i + 2..])[i + 2] == s[i + 2]
  {
    var p := SwapPairs(s[..i]);
    var c := p + s[i..];
    assert c[..i] == p && c[i + 1..] == s[i + 1..];
    var w := p + s[i + 1..];
    assert w[..i + 1] == p + [s[i + 1]] && w[i + 1..] == s[i + 2..];
    assert s[..i + 2] == s[..i] + [s[i], s[i + 1]];
    SwapPairsSnoc(s[..i], s[i], s[i + 1]);
  }

  /** The loop of `q_swap` ends with at most one node left unswapped: the whole order is swapped. */
  lemma SwapDone(s: seq<int>, i: int)
    requires 0 <= i <= |s| && i % 2 == 0 && |s| - i <= 1
    ensures SwapPairs(s[..i]) + s[i..] == SwapPairs(s)
  {
    SwapPairsSplit(s, i);
  }

  /** A partly swapped order is a permutation of the original. */
  lemma SwapPrefixPerm(s: seq<int>, i: int)
    requires 0 <= i <= |s|
    ensures multiset(SwapPairs(s[..i]) + s[i..]) == multiset(s)
  {
    SwapPairsPerm(s[..i]);
    assert s == s[..i] + s[i..];
  }

  /**
   * One step of `q_reverse`: with the first k nodes already reversed, moving
   * s[k] to the front reverses one more.
   */
  lemma ReverseStep(s: seq<int>, k: int)
    requires 0 <= k < |s|
    ensures Without(Reverse(s[..k]) + s[k..], k) == Reverse(s[..k]) + s[k + 1..]
    ensures [s[k]] + (Reverse(s[..k]) + s[k + 1..]) == Reverse(s[..k + 1]) + s[k + 1..]
  {
    var r := Reverse(s[..k]);
    var c := r + s[k..];
    assert c[..k] == r && c[k + 1..] == s[k + 1..];
    assert s[..k + 1] == s[..k] + [s[k]];
    ReverseConcat(s[..k], [s[k]]);
    AppendAssoc([s[k]], r, s[k + 1..]);
  }

  /** A partly reversed order is a permutation of the original. */
  lemma ReversePrefixPerm(s: seq<int>, k: int)
    requires 0 <= k <= |s|
    ensures multiset(Reverse(s[..k]) + s[k..]) == multiset(s)
  {
    ReversePerm(s[..k]);
    assert s == s[..k] + s[k..];
  }
}
