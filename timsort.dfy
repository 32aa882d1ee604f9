/**
 * The list sort of timsort.c. The circular list is cut into a NULL-terminated
 * chain. The chain is split into runs that are already sorted, or strictly
 * descending and then reversed. The runs go onto a stack whose adjacent runs
 * are merged while their sizes break the balance rules. The last two runs
 * are merged into the list head while the `prev` links are rebuilt.
 *
 * In timsort.c the stack is threaded through the `prev` field of each run's
 * first node, a run's length is stored in the `prev` field of its second node
 * through a pointer cast, and the stack height is the global `stk_size`. Here
 * the stack is an explicit sequence of `Run` entries, each carrying its first
 * node and its length, and `stk_size` is the length of that sequence.
 */
module TimSort {
  import opened CString
  import opened NodeSeq
  import opened Sorting
  import opened Links

  // ---------------------------------------------------------------------------
  // Comparing nodes, measuring runs

  /** `tim_compare(a, b)`: 0 for a NULL or for one node compared with itself, otherwise strcmp's sign. */
  function TimCompare(vals: Values, a: int, b: int): (r: int)
    ensures -1 <= r <= 1
  {
    if a == Nil || b == Nil || a == b then 0 else StrCmp(Key(vals, a), Key(vals, b))
  }

  /** Swapping the two nodes flips the comparison. */
  lemma TimCompareFlip(vals: Values, a: int, b: int)
    ensures TimCompare(vals, b, a) == -TimCompare(vals, a, b)
  {
    StrCmpFlip(Key(vals, a), Key(vals, b));
  }

  /** Two distinct nodes compare equal exactly when they carry the same string. */
  lemma TimCompareZero(vals: Values, a: int, b: int)
    requires a != Nil && b != Nil && a != b
    ensures TimCompare(vals, a, b) == 0 <==> Key(vals, a) == Key(vals, b)
    ensures TimCompare(vals, a, b) <= 0 <==> Le(vals, a, b)
  {
    StrCmpZero(Key(vals, a), Key(vals, b));
  }

  /** A stack entry: a run's first node and its length (the count timsort.c keeps in a `prev` field). */
  datatype Run = Run(head: int, len: nat)

  /**
   * `run_size(head)`: 0 for NULL, 1 for a run whose first node has no
   * successor, otherwise the stored count.
   */
  function RunSize(m: Heap, r: Run): (n: nat)
    reads m
    requires r.head == Nil || 0 <= r.head < |m.next|
  {
    if r.head == Nil then 0 else if m.next[r.head] == Nil then 1 else r.len
  }

  /** When the stored count is the number of nodes of the run's chain, `run_size` is that number. */
  lemma RunSizeCounts(m: Heap, r: Run, c: seq<int>)
    requires Chain(m.next, c) && r.head == Head(c) && r.len == |c|
    ensures RunSize(m, r) == |c|
  {
    if |c| == 1 {
      assert m.next[c[0]] == ChainSucc(c, 0);
    } else if |c| > 1 {
      assert m.next[c[0]] == c[1];
    }
  }

  // ---------------------------------------------------------------------------
  // Runs, on orders

  /** Length of the longest non-decreasing prefix of s. */
  function AscLen(vals: Values, s: seq<int>): (k: nat)
    ensures k <= |s| && (s != [] ==> 1 <= k)
    ensures Sorted(vals, s[..k])
    ensures k < |s| ==> 1 <= k && !Le(vals, s[k - 1], s[k])
    decreases |s|
  {
    if |s| <= 1 then |s|
    else if Le(vals, s[0], s[1]) then
      var k := 1 + AscLen(vals, s[1..]);
      AscCons(vals, s, k);
      k
    else 1
  }

  /** Length of the longest strictly descending prefix of s. */
  function DescLen(vals: Values, s: seq<int>): (k: nat)
    ensures k <= |s| && (s != [] ==> 1 <= k)
    ensures StrictlyDesc(vals, s[..k])
    ensures k < |s| ==> 1 <= k && StrCmp(Key(vals, s[k - 1]), Key(vals, s[k])) <= 0
    decreases |s|
  {
    if |s| <= 1 then |s|
    else if StrCmp(Key(vals, s[0]), Key(vals, s[1])) > 0 then
      var k := 1 + DescLen(vals, s[1..]);
      DescCons(vals, s, k);
      k
    else 1
  }

  /** A node in order before a non-decreasing prefix of the rest extends it. */
  lemma AscCons(vals: Values, s: seq<int>, k: int)
    requires 2 <= k <= |s| && Le(vals, s[0], s[1]) && Sorted(vals, s[1..][..k - 1])
    ensures Sorted(vals, s[..k])
  {
    forall i | 0 <= i < k - 1 ensures Le(vals, s[..k][i], s[..k][i + 1]) {
      if i > 0 {
        assert s[..k][i] == s[1..][..k - 1][i - 1] && s[..k][i + 1] == s[1..][..k - 1][i];
      }
    }
  }

  /** A node strictly after the first of a strictly descending prefix of the rest extends it. */
  lemma DescCons(vals: Values, s: seq<int>, k: int)
    requires 2 <= k <= |s| && StrCmp(Key(vals, s[0]), Key(vals, s[1])) > 0 && StrictlyDesc(vals, s[1..][..k - 1])
    ensures StrictlyDesc(vals, s[..k])
  {
    forall i | 0 <= i < k - 1 ensures StrCmp(Key(vals, s[..k][i]), Key(vals, s[..k][i + 1])) > 0 {
      if i > 0 {
        assert s[..k][i] == s[1..][..k - 1][i - 1] && s[..k][i + 1] == s[1..][..k - 1][i];
      }
    }
  }

  /** `find_run` takes the descending branch: the first node sorts strictly after the second. */
  predicate Descending(vals: Values, s: seq<int>) {
    |s| >= 2 && StrCmp(Key(vals, s[0]), Key(vals, s[1])) > 0
  }

  /**
   * How many nodes `find_run` consumes from s: the strictly descending prefix
   * when the first two nodes descend, the non-decreasing prefix otherwise.
   */
  function RunLength(vals: Values, s: seq<int>): (k: nat)
    requires s != []
    ensures 1 <= k <= |s| && (|s| >= 2 ==> k >= 2)
  {
    if Descending(vals, s) then DescLen(vals, s) else AscLen(vals, s)
  }

  /** The run `find_run` leaves: its prefix, reversed when it was descending. */
  function RunOrder(vals: Values, s: seq<int>): seq<int>
    requires s != []
  {
    if Descending(vals, s) then Reverse(s[..RunLength(vals, s)]) else s[..RunLength(vals, s)]
  }

  /**
   * The run is the stable sort of the prefix it was taken from: reversing
   * only strictly descending prefixes never swaps two equal strings.
   */
  lemma RunOrderSorts(vals: Values, s: seq<int>)
    requires s != []
    ensures RunOrder(vals, s) == MergeSortOrder(vals, s[..RunLength(vals, s)])
  {
    var k := RunLength(vals, s);
    if Descending(vals, s) {
      StrictlyDescReversed(vals, s[..k]);
      StableSortIsMergeSortOrder(vals, Reverse(s[..k]), s[..k]);
    } else {
      SortSortedIsIdentity(vals, s[..k]);
    }
  }

  /** No longer prefix would do: the node after the run would break it. */
  lemma RunLengthMaximal(vals: Values, s: seq<int>)
    requires s != [] && RunLength(vals, s) < |s|
    ensures var k := RunLength(vals, s);
      if Descending(vals, s) then StrCmp(Key(vals, s[k - 1]), Key(vals, s[k])) <= 0
      else !Le(vals, s[k - 1], s[k])
  {
  }

  /** A non-decreasing prefix that cannot be extended is the one AscLen measures. */
  lemma {:induction false} AscLenIs(vals: Values, s: seq<int>, k: int)
    requires 1 <= k <= |s| && Sorted(vals, s[..k]) && (k < |s| ==> !Le(vals, s[k - 1], s[k]))
    ensures AscLen(vals, s) == k
    decreases k
  {
    if k > 1 {
      assert s[..k][0] == s[0] && s[..k][1] == s[1];
      assert s[1..][..k - 1] == s[..k][1..];
      AscLenIs(vals, s[1..], k - 1);
    }
  }

  /** A strictly descending prefix that cannot be extended is the one DescLen measures. */
  lemma {:induction false} DescLenIs(vals: Values, s: seq<int>, k: int)
    requires 1 <= k <= |s| && StrictlyDesc(vals, s[..k])
    requires k < |s| ==> StrCmp(Key(vals, s[k - 1]), Key(vals, s[k])) <= 0
    ensures DescLen(vals, s) == k
    decreases k
  {
    if k > 1 {
      assert s[..k][0] == s[0] && s[..k][1] == s[1];
      assert s[1..][..k - 1] == s[..k][1..];
      DescLenIs(vals, s[1..], k - 1);
    }
  }

  // ---------------------------------------------------------------------------
  // find_run

  /**
   * Where `next` of node s[i] points while `find_run` reverses: the nodes
   * before p already point back to their predecessor (the first to NULL), the
   * others still point forward.
   */
  function RevLink(s: seq<int>, p: int, i: int): int
    requires 0 <= i < |s|
  {
    if i >= p then ChainSucc(s, i) else if i == 0 then Nil else s[i - 1]
  }

  /** Every node of s is linked as RevLink says for a reversal that has reached p. */
  ghost predicate LinkedAs(nxt: seq<int>, s: seq<int>, p: int) {
    && InStore(|nxt|, s) && Distinct(s)
    && forall i {:trigger nxt[s[i]]} :: 0 <= i < |s| ==> nxt[s[i]] == RevLink(s, p, i)
  }

  /**
   * The state of `find_run`'s descending loop: the links have been reversed
   * up to p, prev is the node before cur, the node at p, and the first p + 1
   * nodes strictly descend.
   */
  ghost predicate Reversing(nxt: seq<int>, vals: Values, s: seq<int>, p: int, prev: int, cur: int)
  {
    && 0 <= p < |s| && cur == s[p] && prev == (if p == 0 then Nil else s[p - 1])
    && LinkedAs(nxt, s, p)
    && (forall i :: 0 <= i < p ==> StrCmp(Key(vals, s[i]), Key(vals, s[i + 1])) > 0)
  }

  lemma DescStart(nxt: seq<int>, vals: Values, s: seq<int>)
    requires Chain(nxt, s) && s != []
    ensures Reversing(nxt, vals, s, 0, Nil, s[0])
  {
  }

  /** `list->next = prev` moves the node at p over to the reversed side. */
  lemma DescRelink(nxt: seq<int>, vals: Values, s: seq<int>, p: int, prev: int)
    requires 0 <= p < |s| && Reversing(nxt, vals, s, p, prev, s[p])
    ensures LinkedAs(nxt[s[p] := prev], s, p + 1)
  {
    var n1 := nxt[s[p] := prev];
    forall i | 0 <= i < |s| ensures n1[s[i]] == RevLink(s, p + 1, i) {
      if i != p {
        assert s[i] != s[p];
        assert nxt[s[i]] == RevLink(s, p, i);
      }
    }
  }

  /**
   * One pass of the descending loop, `list->next = prev; prev = list;
   * list = next; next = list->next;`, and what the test that follows it sees.
   */
  lemma DescStep(n0: seq<int>, p0: seq<int>, nxt: seq<int>, prv: seq<int>, vals: Values, s: seq<int>, p: int, prev: int)
    requires 0 <= p && p + 1 < |s| && Reversing(nxt, vals, s, p, prev, s[p])
    requires StrCmp(Key(vals, s[p]), Key(vals, s[p + 1])) > 0 && Preserves(n0, p0, nxt, prv, s)
    ensures Reversing(nxt[s[p] := prev], vals, s, p + 1, s[p], s[p + 1])
    ensures Preserves(n0, p0, nxt[s[p] := prev], prv, s)
    ensures nxt[s[p] := prev][s[p + 1]] == Head(s[p + 2..])
    ensures p + 2 < |s| ==> TimCompare(vals, s[p + 1], s[p + 2]) == StrCmp(Key(vals, s[p + 1]), Key(vals, s[p + 2]))
  {
    DescRelink(nxt, vals, s, p, prev);
    assert s[p] in s && s[p + 1] in s;
    if p + 2 < |s| {
      assert s[p + 2] in s;
      assert s[p + 2..][0] == s[p + 2];
      TimCompareZero(vals, s[p + 1], s[p + 2]);
    }
  }

  /** Once the first k nodes point backwards, they form the reversed chain and the rest the forward one. */
  lemma RevChains(nxt: seq<int>, s: seq<int>, k: int)
    requires 0 <= k <= |s| && LinkedAs(nxt, s, k)
    ensures Chain(nxt, Reverse(s[..k])) && Chain(nxt, s[k..])
  {
    RevChainBack(nxt, s, k);
    RevChainForward(nxt, s, k);
  }

  lemma RevChainBack(nxt: seq<int>, s: seq<int>, k: int)
    requires 0 <= k <= |s| && LinkedAs(nxt, s, k)
    ensures Chain(nxt, Reverse(s[..k]))
  {
    var r := Reverse(s[..k]);
    forall q | 0 <= q < |r| ensures r[q] == s[k - 1 - q] {
      assert r[q] == s[..k][k - 1 - q];
    }
    forall q | 0 <= q < |r| ensures 0 <= r[q] < |nxt| && nxt[r[q]] == ChainSucc(r, q) {
      assert nxt[s[k - 1 - q]] == RevLink(s, k, k - 1 - q);
    }
    forall i, j | 0 <= i < j < |r| ensures r[i] != r[j] {
      assert s[k - 1 - i] != s[k - 1 - j];
    }
  }

  lemma RevChainForward(nxt: seq<int>, s: seq<int>, k: int)
    requires 0 <= k <= |s| && LinkedAs(nxt, s, k)
    ensures Chain(nxt, s[k..])
  {
    var w := s[k..];
    forall q | 0 <= q < |w| ensures 0 <= w[q] < |nxt| && nxt[w[q]] == ChainSucc(w, q) {
      assert nxt[s[k + q]] == RevLink(s, k, k + q);
    }
    forall i, j | 0 <= i < j < |w| ensures w[i] != w[j] {
      assert s[k + i] != s[k + j];
    }
  }

  /** The descending loop stops: `list->next = prev` closes the reversed run. */
  lemma DescEnd(n0: seq<int>, p0: seq<int>, nxt: seq<int>, prv: seq<int>, vals: Values, s: seq<int>,
                p: int, prev: int, nx: int)
    requires 0 <= p < |s| && Reversing(nxt, vals, s, p, prev, s[p]) && p >= 1 && Preserves(n0, p0, nxt, prv, s)
    requires nx == Head(s[p + 1..]) && (nx == Nil || TimCompare(vals, s[p], nx) <= 0)
    ensures FoundRun(nxt[s[p] := prev], vals, s, Run(s[p], p + 1), nx)
    ensures Preserves(n0, p0, nxt[s[p] := prev], prv, s)
  {
    if p + 1 < |s| {
      assert s[p + 1..][0] == s[p + 1] && s[p] in s && s[p + 1] in s;
      TimCompareZero(vals, s[p], s[p + 1]);
    }
    var u := s[..p + 1];
    forall q | 0 <= q < |u| - 1 ensures StrCmp(Key(vals, u[q]), Key(vals, u[q + 1])) > 0 {
      assert u[q] == s[q] && u[q + 1] == s[q + 1];
    }
    DescLenIs(vals, s, p + 1);
    assert u[0] == s[0] && u[1] == s[1];
    DescRelink(nxt, vals, s, p, prev);
    RevChains(nxt[s[p] := prev], s, p + 1);
    assert s[p] in s;
  }

  /** The ascending loop stops: `list->next = NULL` ends the run. */
  lemma AscEnd(n0: seq<int>, p0: seq<int>, nxt: seq<int>, vals: Values, s: seq<int>, p: int, nx: int)
    requires Chain(nxt, s) && 1 <= p < |s| && !Descending(vals, s) && Sorted(vals, s[..p + 1])
    requires nx == nxt[s[p]] && (nx == Nil || TimCompare(vals, s[p], nx) > 0)
    requires |n0| == |p0| && nxt == n0
    ensures FoundRun(nxt[s[p] := Nil], vals, s, Run(s[0], p + 1), nx)
    ensures Preserves(n0, p0, nxt[s[p] := Nil], p0, s)
  {
    assert nxt[s[p]] == ChainSucc(s, p);
    if p + 1 < |s| {
      assert s[p] in s && s[p + 1] in s;
      TimCompareZero(vals, s[p], s[p + 1]);
      assert s[p + 1..][0] == s[p + 1];
    }
    AscLenIs(vals, s, p + 1);
    assert RunLength(vals, s) == p + 1 && RunOrder(vals, s) == s[..p + 1];
    ChainCut(nxt, s, p + 1);
    assert s[..p + 1][0] == s[0];
    CutTouch(n0, p0, s[p], s, p);
  }

  /** Writing one `next` field of a node of u touches only u. */
  lemma CutTouch(n0: seq<int>, p0: seq<int>, x: int, u: seq<int>, k: int)
    requires |n0| == |p0| && 0 <= k < |u| && x == u[k] && 0 <= x < |n0|
    ensures Preserves(n0, p0, n0[x := Nil], p0, u)
  {
    assert x in u;
  }

  /** `next` of the k-th node set to NULL: the chain falls into its first k nodes and the rest. */
  lemma ChainCut(nxt: seq<int>, s: seq<int>, k: int)
    requires Chain(nxt, s) && 1 <= k <= |s|
    ensures Chain(nxt[s[k - 1] := Nil], s[..k]) && Chain(nxt[s[k - 1] := Nil], s[k..])
  {
    var n1 := nxt[s[k - 1] := Nil];
    var u, w := s[..k], s[k..];
    forall q | 0 <= q < |u| ensures n1[u[q]] == ChainSucc(u, q) {
      assert u[q] == s[q];
      assert nxt[s[q]] == ChainSucc(s, q);
    }
    forall q | 0 <= q < |w| ensures n1[w[q]] == ChainSucc(w, q) {
      assert w[q] == s[k + q] && s[k + q] != s[k - 1];
      assert nxt[s[k + q]] == ChainSucc(s, k + q);
    }
    forall i, j | 0 <= i < j < |w| ensures w[i] != w[j] {
      assert s[k + i] != s[k + j];
    }
  }

  /** The ascending loop goes on: one more node joins the non-decreasing prefix. */
  lemma AscStep(nxt: seq<int>, vals: Values, s: seq<int>, p: int)
    requires Chain(nxt, s) && 1 <= p < |s| && Sorted(vals, s[..p + 1])
    requires nxt[s[p]] != Nil && TimCompare(vals, s[p], nxt[s[p]]) <= 0
    ensures p + 1 < |s| && nxt[s[p]] == s[p + 1] && Sorted(vals, s[..p + 2])
  {
    assert nxt[s[p]] == ChainSucc(s, p);
    assert s[p] in s && s[p + 1] in s;
    TimCompareZero(vals, s[p], s[p + 1]);
    var u, w := s[..p + 2], s[..p + 1];
    forall q | 0 <= q < |u| - 1 ensures Le(vals, u[q], u[q + 1]) {
      if q < p {
        assert u[q] == w[q] && u[q + 1] == w[q + 1];
      }
    }
  }

  /**
   * What `find_run` leaves behind for the chain s: the run, first node and
   * length, is linked as a chain of its own in RunOrder, and rest starts the
   * untouched chain of the nodes after it.
   */
  ghost predicate FoundRun(nxt: seq<int>, vals: Values, s: seq<int>, run: Run, rest: int) {
    && s != [] && run.len == RunLength(vals, s) && run.head == RunOrder(vals, s)[0]
    && Chain(nxt, RunOrder(vals, s)) && Chain(nxt, s[run.len..]) && rest == Head(s[run.len..])
  }

  /**
   * `find_run(list)`: the longest non-decreasing prefix of the chain s from
   * list, or, when its first two nodes descend, its longest strictly
   * descending prefix reversed in place, becomes a chain of its own; the run
   * and its length are returned with the first node after it.
   */
  method FindRun(m: Heap, list: int, ghost s: seq<int>) returns (run: Run, rest: int)
    requires Chain(m.next, s) && s != [] && list == s[0] && |m.next| == |m.prev|
    modifies m
    ensures m.prev == old(m.prev) && m.val == old(m.val)
    ensures Preserves(old(m.next), old(m.prev), m.next, m.prev, s)
    ensures FoundRun(m.next, m.val, s, run, rest)
  {
    var nx := m.next[list];
    assert nx == ChainSucc(s, 0);
    if nx == Nil {
      assert s[1..] == [] && s[..1] == s;
      return Run(list, 1), nx;
    }
    assert s[0] in s && s[1] in s && s[0] != s[1];
    TimCompareZero(m.val, list, nx);
    if TimCompare(m.val, list, nx) > 0 {
      run, rest := FindDescending(m, list, nx, s);
    } else {
      run, rest := FindAscending(m, list, nx, s);
    }
  }

  /** The descending branch of `find_run`: the strictly descending prefix is reversed as it is walked. */
  method FindDescending(m: Heap, list: int, next: int, ghost s: seq<int>) returns (run: Run, rest: int)
    requires Chain(m.next, s) && |s| >= 2 && list == s[0] && next == s[1] && |m.next| == |m.prev|
    requires StrCmp(Key(m.val, s[0]), Key(m.val, s[1])) > 0
    modifies m
    ensures m.prev == old(m.prev) && m.val == old(m.val)
    ensures Preserves(old(m.next), old(m.prev), m.next, m.prev, s)
    ensures FoundRun(m.next, m.val, s, run, rest)
  {
    ghost var vals, n0, p0 := m.val, m.next, m.prev;
    ghost var p := 0;
    var len, cur, nx, head, prev := 1, list, next, list, Nil;
    DescStart(m.next, vals, s);
    while true
      invariant 0 <= p && p + 1 < |s| && Reversing(m.next, vals, s, p, prev, cur) && nx == s[p + 1]
      invariant head == cur && len == p + 1 && StrCmp(Key(vals, s[p]), Key(vals, s[p + 1])) > 0
      invariant m.prev == p0 && m.val == vals && Preserves(n0, p0, m.next, m.prev, s)
      decreases |s| - p
    {
      DescStep(n0, p0, m.next, m.prev, vals, s, p, prev);
      len := len + 1;
      m.next := m.next[cur := prev];
      prev, cur := cur, nx;
      nx := m.next[cur];
      head := cur;
      p := p + 1;
      if nx == Nil || TimCompare(m.val, cur, nx) <= 0 {
        break;
      }
    }
    DescEnd(n0, p0, m.next, m.prev, vals, s, p, prev, nx);
    m.next := m.next[cur := prev];
    run, rest := Run(head, len), nx;
  }

  /** The ascending branch of `find_run`: the non-decreasing prefix is walked and cut off. */
  method FindAscending(m: Heap, list: int, next: int, ghost s: seq<int>) returns (run: Run, rest: int)
    requires Chain(m.next, s) && |s| >= 2 && list == s[0] && next == s[1] && |m.next| == |m.prev|
    requires StrCmp(Key(m.val, s[0]), Key(m.val, s[1])) <= 0
    modifies m
    ensures m.prev == old(m.prev) && m.val == old(m.val)
    ensures Preserves(old(m.next), old(m.prev), m.next, m.prev, s)
    ensures FoundRun(m.next, m.val, s, run, rest)
  {
    ghost var vals := m.val;
    ghost var p := 0;
    var len, cur, nx := 1, list, next;
    assert s[..2][0] == s[0] && s[..2][1] == s[1];
    while true
      invariant 0 <= p && p + 1 < |s| && cur == s[p] && nx == s[p + 1] && len == p + 1
      invariant Sorted(vals, s[..p + 2]) && Chain(m.next, s) && m.next == old(m.next) && m.prev == old(m.prev) && m.val == vals
      decreases |s| - p
    {
      len := len + 1;
      cur := nx;
      nx := m.next[cur];
      p := p + 1;
      if nx == Nil || TimCompare(m.val, cur, nx) > 0 {
        break;
      }
      AscStep(m.next, vals, s, p);
    }
    AscEnd(old(m.next), old(m.prev), m.next, vals, s, p, nx);
    m.next := m.next[cur := Nil];
    run, rest := Run(list, len), nx;
  }

  // ---------------------------------------------------------------------------
  // merge: two chains into one

  /**
   * The state of `merge`'s loop. t, the nodes already taken, are linked in
   * order; head is the first of them and tail the last (both Nil while `tail`
   * still points at the local `head`). What is left of a and b are still
   * chains, and t followed by their merge is the merge of the whole chains.
   */
  ghost predicate Merging(nxt: seq<int>, vals: Values, sa: seq<int>, sb: seq<int>,
                          i: int, j: int, t: seq<int>, head: int, tail: int)
  {
    && 0 <= i < |sa| && 0 <= j < |sb| && Disjoint(sa, sb)
    && Chain(nxt, sa[i..]) && Chain(nxt, sb[j..])
    && t + Merge(vals, sa[i..], sb[j..]) == Merge(vals, sa, sb)
    && Distinct(Merge(vals, sa, sb))
    && Linked(nxt, t)
    && (t == [] ==> head == Nil && tail == Nil)
    && (t != [] ==> head == t[0] && tail == t[|t| - 1] && (tail in sa || tail in sb))
  }

  /** Two disjoint chains merge into an order without repetitions. */
  lemma MergeDistinct(nxt: seq<int>, vals: Values, sa: seq<int>, sb: seq<int>)
    requires Chain(nxt, sa) && Chain(nxt, sb) && Disjoint(sa, sb)
    ensures Distinct(Merge(vals, sa, sb)) && Distinct(sa + sb)
  {
    MergePerm(vals, sa, sb);
    DistinctConcat(sa, sb);
    DistinctPerm(sa + sb, Merge(vals, sa, sb));
  }

  lemma MergeStart(nxt: seq<int>, vals: Values, sa: seq<int>, sb: seq<int>)
    requires Chain(nxt, sa) && Chain(nxt, sb) && Disjoint(sa, sb) && sa != [] && sb != []
    ensures Merging(nxt, vals, sa, sb, 0, 0, [], Nil, Nil)
  {
    MergeDistinct(nxt, vals, sa, sb);
    assert sa[0..] == sa && sb[0..] == sb;
  }

  /** The nodes already taken are none of the nodes still to merge. */
  lemma TakenApart(vals: Values, sa: seq<int>, sb: seq<int>, i: int, j: int, t: seq<int>)
    requires 0 <= i <= |sa| && 0 <= j <= |sb| && Distinct(t + Merge(vals, sa[i..], sb[j..]))
    ensures Distinct(t) && forall x :: x in t ==> x !in sa[i..] && x !in sb[j..]
  {
    var r := Merge(vals, sa[i..], sb[j..]);
    DistinctConcat(t, r);
    MergePerm(vals, sa[i..], sb[j..]);
    forall x | x in sa[i..] || x in sb[j..] ensures x in r {
      assert x in multiset(r);
    }
  }

  /** The merge of the rests starts with the head of a's rest when that sorts no later. */
  lemma MergeStepA(vals: Values, sa: seq<int>, sb: seq<int>, i: int, j: int)
    requires 0 <= i < |sa| && 0 <= j < |sb| && Le(vals, sa[i], sb[j])
    ensures Merge(vals, sa[i..], sb[j..]) == [sa[i]] + Merge(vals, sa[i + 1..], sb[j..])
  {
    assert sa[i..][1..] == sa[i + 1..];
  }

  /** ... and with the head of b's rest otherwise. */
  lemma MergeStepB(vals: Values, sa: seq<int>, sb: seq<int>, i: int, j: int)
    requires 0 <= i < |sa| && 0 <= j < |sb| && !Le(vals, sa[i], sb[j])
    ensures Merge(vals, sa[i..], sb[j..]) == [sb[j]] + Merge(vals, sa[i..], sb[j + 1..])
  {
    assert sb[j..][1..] == sb[j + 1..];
  }

  /**
   * One pass of `merge` that takes a: `*tail = a; tail = &a->next; a = a->next;`
   * and, when a runs out, `*tail = b`.
   */
  method TakeA(m: Heap, head: int, tail: int, a: int, b: int,
               ghost vals: Values, ghost sa: seq<int>, ghost sb: seq<int>, ghost i: int, ghost j: int, ghost t: seq<int>)
    returns (head': int, tail': int, a': int)
    requires Merging(m.next, vals, sa, sb, i, j, t, head, tail) && a == sa[i] && b == sb[j]
    requires Le(vals, a, b) && |m.next| == |m.prev|
    modifies m
    ensures m.prev == old(m.prev) && m.val == old(m.val)
    ensures Preserves(old(m.next), old(m.prev), m.next, m.prev, sa + sb)
    ensures a' != Nil ==> i + 1 < |sa| && a' == sa[i + 1] && Merging(m.next, vals, sa, sb, i + 1, j, t + [sa[i]], head', tail')
    ensures a' == Nil ==> Chain(m.next, Merge(vals, sa, sb)) && head' == Head(Merge(vals, sa, sb))
  {
    ghost var n0 := m.next;
    MergeStepA(vals, sa, sb, i, j);
    AppendAssoc(t, [sa[i]], Merge(vals, sa[i + 1..], sb[j..]));
    TakenApart(vals, sa, sb, i, j, t);
    if tail == Nil {
      head' := a;
    } else {
      head' := head;
      ChainUpdate(m.next, sa[i..], tail, a);
      ChainUpdate(m.next, sb[j..], tail, a);
      m.next := m.next[tail := a];
    }
    ghost var n1 := m.next;
    LinkedSnoc(n0, n1, t, a);
    ChainRest(n1, sa, i);
    tail' := a;
    a' := m.next[a];
    if a' == Nil {
      assert a !in sb[j..];
      ChainUpdate(n1, sb[j..], a, b);
      LinkedUpdate(n1, t + [a], a, b);
      m.next := m.next[a := b];
      assert sa[i + 1..] == [];
      ChainJoin(m.next, t + [a], sb[j..]);
    } else {
      assert sa[i + 1..][0] == sa[i + 1];
    }
  }

  /** One pass of `merge` that takes b, and when b runs out, `*tail = a`. */
  method TakeB(m: Heap, head: int, tail: int, a: int, b: int,
               ghost vals: Values, ghost sa: seq<int>, ghost sb: seq<int>, ghost i: int, ghost j: int, ghost t: seq<int>)
    returns (head': int, tail': int, b': int)
    requires Merging(m.next, vals, sa, sb, i, j, t, head, tail) && a == sa[i] && b == sb[j]
    requires !Le(vals, a, b) && |m.next| == |m.prev|
    modifies m
    ensures m.prev == old(m.prev) && m.val == old(m.val)
    ensures Preserves(old(m.next), old(m.prev), m.next, m.prev, sa + sb)
    ensures b' != Nil ==> j + 1 < |sb| && b' == sb[j + 1] && Merging(m.next, vals, sa, sb, i, j + 1, t + [sb[j]], head', tail')
    ensures b' == Nil ==> Chain(m.next, Merge(vals, sa, sb)) && head' == Head(Merge(vals, sa, sb))
  {
    ghost var n0 := m.next;
    MergeStepB(vals, sa, sb, i, j);
    AppendAssoc(t, [sb[j]], Merge(vals, sa[i..], sb[j + 1..]));
    TakenApart(vals, sa, sb, i, j, t);
    if tail == Nil {
      head' := b;
    } else {
      head' := head;
      ChainUpdate(m.next, sa[i..], tail, b);
      ChainUpdate(m.next, sb[j..], tail, b);
      m.next := m.next[tail := b];
    }
    ghost var n1 := m.next;
    LinkedSnoc(n0, n1, t, b);
    ChainRest(n1, sb, j);
    tail' := b;
    b' := m.next[b];
    if b' == Nil {
      assert b !in sa[i..];
      ChainUpdate(n1, sa[i..], b, a);
      LinkedUpdate(n1, t + [b], b, a);
      m.next := m.next[b := a];
      assert sb[j + 1..] == [];
      assert Merge(vals, sa[i..], []) == sa[i..];
      ChainJoin(m.next, t + [b], sa[i..]);
    } else {
      assert sb[j + 1..][0] == sb[j + 1];
    }
  }

  /**
   * One pass of the `merge` loop: the node of a is taken when it compares
   * <= 0 with that of b, otherwise b's is; done when that list ran out.
   */
  method MergeTake(m: Heap, head: int, tail: int, x: int, y: int,
                   ghost vals: Values, ghost sa: seq<int>, ghost sb: seq<int>, ghost i: int, ghost j: int, ghost t: seq<int>)
    returns (head': int, tail': int, x': int, y': int, done: bool, ghost i': int, ghost j': int, ghost t': seq<int>)
    requires Merging(m.next, vals, sa, sb, i, j, t, head, tail) && x == sa[i] && y == sb[j]
    requires m.val == vals && |m.next| == |m.prev|
    modifies m
    ensures m.prev == old(m.prev) && m.val == old(m.val)
    ensures Preserves(old(m.next), old(m.prev), m.next, m.prev, sa + sb)
    ensures i' + j' == i + j + 1
    ensures !done ==> Merging(m.next, vals, sa, sb, i', j', t', head', tail') && x' == sa[i'] && y' == sb[j']
    ensures done ==> Chain(m.next, Merge(vals, sa, sb)) && head' == Head(Merge(vals, sa, sb))
  {
    assert x in sa && y in sb;
    TimCompareZero(vals, x, y);
    if TimCompare(m.val, x, y) <= 0 {
      head', tail', x' := TakeA(m, head, tail, x, y, vals, sa, sb, i, j, t);
      y', done, i', j', t' := y, x' == Nil, i + 1, j, t + [sa[i]];
    } else {
      head', tail', y' := TakeB(m, head, tail, x, y, vals, sa, sb, i, j, t);
      x', done, i', j', t' := x, y' == Nil, i, j + 1, t + [sb[j]];
    }
  }

  /**
   * `merge(a, b)`: the chains a and b become one chain in sorted order, a's
   * node first on equal strings; NULL and no change when either is NULL or
   * both are the same node.
   */
  method MergeChains(m: Heap, a: int, b: int, ghost sa: seq<int>, ghost sb: seq<int>) returns (list: int)
    requires Chain(m.next, sa) && Chain(m.next, sb) && a == Head(sa) && b == Head(sb)
    requires a == b || Disjoint(sa, sb)
    requires |m.next| == |m.prev|
    modifies m
    ensures m.prev == old(m.prev) && m.val == old(m.val)
    ensures Preserves(old(m.next), old(m.prev), m.next, m.prev, sa + sb)
    ensures a == Nil || b == Nil || a == b ==> list == Nil && m.next == old(m.next)
    ensures a != Nil && b != Nil && a != b ==>
      Chain(m.next, Merge(m.val, sa, sb)) && list == Head(Merge(m.val, sa, sb))
  {
    if a == Nil || b == Nil || a == b {
      return Nil;
    }
    list := MergeLoop(m, a, b, sa, sb);
  }

  /** The loop of `merge`, once both chains are known to be non-empty and apart. */
  method MergeLoop(m: Heap, a: int, b: int, ghost sa: seq<int>, ghost sb: seq<int>) returns (list: int)
    requires Chain(m.next, sa) && Chain(m.next, sb) && a == Head(sa) && b == Head(sb)
    requires a != Nil && b != Nil && Disjoint(sa, sb) && |m.next| == |m.prev|
    modifies m
    ensures m.prev == old(m.prev) && m.val == old(m.val)
    ensures Preserves(old(m.next), old(m.prev), m.next, m.prev, sa + sb)
    ensures Chain(m.next, Merge(m.val, sa, sb)) && list == Head(Merge(m.val, sa, sb))
  {
    ghost var vals := m.val;
    MergeStart(m.next, vals, sa, sb);
    var head, tail, x, y := Nil, Nil, a, b;
    ghost var i, j, t := 0, 0, [];
    var done := false;
    while !done
      invariant m.prev == old(m.prev) && m.val == vals
      invariant Preserves(old(m.next), old(m.prev), m.next, m.prev, sa + sb)
      invariant !done ==> Merging(m.next, vals, sa, sb, i, j, t, head, tail) && x == sa[i] && y == sb[j]
      invariant done ==> Chain(m.next, Merge(vals, sa, sb)) && head == Head(Merge(vals, sa, sb))
      decreases !done, |sa| + |sb| - i - j
    {
      ghost var n1 := m.next;
      head, tail, x, y, done, i, j, t := MergeTake(m, head, tail, x, y, vals, sa, sb, i, j, t);
      PreservesTrans(old(m.next), old(m.prev), n1, m.prev, m.next, m.prev, sa + sb, sa + sb, sa + sb);
    }
    list := head;
  }

  // ---------------------------------------------------------------------------
  // build_prev_link and merge_final: closing the circle

  /**
   * `build_prev_link(head, tail, list)`: the chain r starting at list is hung
   * behind tail, the last node of the front head, t; the `prev` links of r are
   * set on the way and the circle is closed onto head.
   */
  method BuildPrevLink(m: Heap, head: int, tail: int, list: int, ghost t: seq<int>, ghost r: seq<int>)
    requires FrontIn(m.next, m.prev, head, t) && tail == Last(head, t)
    requires Chain(m.next, r) && r != [] && list == r[0] && Disjoint(t, r) && head !in r
    modifies m
    ensures m.IsQueue(head, t + r) && m.val == old(m.val)
    ensures Preserves(old(m.next), old(m.prev), m.next, m.prev, [head] + t + r)
  {
    ghost var n0, p0 := m.next, m.prev;
    BuildStart(m.next, m.prev, head, t, r, tail, list);
    m.next := m.next[tail := list];
    var tl, l := tail, list;
    ghost var k := 0;
    while l != Nil
      invariant Building(m.next, m.prev, head, t, r, k, tl, l)
      invariant m.val == old(m.val) && Preserves(n0, p0, m.next, m.prev, [head] + t + r)
      decreases |r| - k
    {
      BuildStep(m.next, m.prev, head, t, r, k, tl, l);
      m.prev := m.prev[l := tl];
      tl := l;
      l := m.next[l];
      k := k + 1;
    }
    BuildEnd(m.next, m.prev, head, t, r, k, tl);
    m.next := m.next[tl := head];
    m.prev := m.prev[head := tl];
  }

  /**
   * The state of `build_prev_link`'s loop: the first k nodes of r have joined
   * the front, tl is its last node and leads on to l, the next node of r.
   */
  ghost predicate Building(nxt: seq<int>, prv: seq<int>, head: int, t: seq<int>, r: seq<int>, k: int, tl: int, l: int)
  {
    && 0 <= k <= |r| && Disjoint(t, r) && head !in r
    && FrontIn(nxt, prv, head, t + r[..k]) && tl == Last(head, t + r[..k])
    && Chain(nxt, r) && l == Head(r[k..]) && (k < |r| ==> nxt[tl] == r[k])
  }

  lemma BuildStart(nxt: seq<int>, prv: seq<int>, head: int, t: seq<int>, r: seq<int>, tail: int, list: int)
    requires FrontIn(nxt, prv, head, t) && tail == Last(head, t)
    requires Chain(nxt, r) && r != [] && list == r[0] && Disjoint(t, r) && head !in r
    ensures Building(nxt[tail := list], prv, head, t, r, 0, tail, list)
  {
    FrontRelink(nxt, prv, head, t, list);
    assert tail !in r;
    ChainUpdate(nxt, r, tail, list);
    assert t + r[..0] == t;
  }

  lemma BuildStep(nxt: seq<int>, prv: seq<int>, head: int, t: seq<int>, r: seq<int>, k: int, tl: int, l: int)
    requires Building(nxt, prv, head, t, r, k, tl, l) && l != Nil
    ensures k < |r| && l == r[k] && l in r
    ensures Building(nxt, prv[l := tl], head, t, r, k + 1, l, nxt[l])
  {
    assert l == r[k] && l in r;
    assert l !in r[..k];
    FrontExtend(nxt, prv, head, t + r[..k], l);
    assert nxt[r[k]] == ChainSucc(r, k);
    assert t + r[..k + 1] == (t + r[..k]) + [r[k]];
  }

  lemma BuildEnd(nxt: seq<int>, prv: seq<int>, head: int, t: seq<int>, r: seq<int>, k: int, tl: int)
    requires Building(nxt, prv, head, t, r, k, tl, Nil)
    ensures tl == Last(head, t + r) && QueueIn(nxt[tl := head], prv[head := tl], head, t + r)
  {
    assert r[..k] == r;
    FrontClose(nxt, prv, head, t + r);
  }

  /**
   * The state of `merge_final`'s loop: t, the nodes already taken, follow head
   * linked both ways and tail is the last of them (head itself at first);
   * what is left of a and b are still chains, and t followed by their merge
   * is the merge of the whole chains.
   */
  ghost predicate Finishing(nxt: seq<int>, prv: seq<int>, vals: Values, head: int, sa: seq<int>, sb: seq<int>,
                            i: int, j: int, t: seq<int>, tail: int)
  {
    && 0 <= i < |sa| && 0 <= j < |sb| && Disjoint(sa, sb) && head !in sa && head !in sb
    && Chain(nxt, sa[i..]) && Chain(nxt, sb[j..])
    && t + Merge(vals, sa[i..], sb[j..]) == Merge(vals, sa, sb)
    && Distinct(Merge(vals, sa, sb))
    && FrontIn(nxt, prv, head, t) && tail == Last(head, t)
    && (t != [] ==> tail in sa || tail in sb)
  }

  lemma FinishStart(nxt: seq<int>, prv: seq<int>, vals: Values, head: int, sa: seq<int>, sb: seq<int>)
    requires Chain(nxt, sa) && Chain(nxt, sb) && Disjoint(sa, sb) && sa != [] && sb != []
    requires |nxt| == |prv| && 0 <= head < |nxt| && head !in sa && head !in sb
    ensures Finishing(nxt, prv, vals, head, sa, sb, 0, 0, [], head)
  {
    MergeDistinct(nxt, vals, sa, sb);
    assert sa[0..] == sa && sb[0..] == sb;
  }

  /**
   * What `merge_final` leaves for `build_prev_link`: the front t and the rest r
   * of one chain, together the merge of both.
   */
  ghost predicate Finished(nxt: seq<int>, prv: seq<int>, vals: Values, head: int, sa: seq<int>, sb: seq<int>,
                           t: seq<int>, tail: int, r: seq<int>, rest: int)
  {
    && FrontIn(nxt, prv, head, t) && tail == Last(head, t)
    && Chain(nxt, r) && r != [] && rest == r[0] && Disjoint(t, r) && head !in r
    && t + r == Merge(vals, sa, sb)
  }

  /** Writing `tail->next = x; x->prev = tail;` touches only tail and x. */
  lemma RelinkTouch(n0: seq<int>, p0: seq<int>, tail: int, x: int, u: seq<int>)
    requires |n0| == |p0| && 0 <= tail < |n0| && 0 <= x < |p0| && tail in u && x in u
    ensures Preserves(n0, p0, n0[tail := x], p0[x := tail], u)
  {
  }

  /** One pass of `merge_final` that takes a: `tail->next = a; a->prev = tail; tail = a; a = a->next;`. */
  method FinalTakeA(m: Heap, head: int, tail: int, a: int, b: int,
                    ghost vals: Values, ghost sa: seq<int>, ghost sb: seq<int>, ghost i: int, ghost j: int, ghost t: seq<int>)
    returns (tail': int, a': int)
    requires Finishing(m.next, m.prev, vals, head, sa, sb, i, j, t, tail) && a == sa[i] && b == sb[j]
    requires Le(vals, a, b)
    modifies m
    ensures m.val == old(m.val)
    ensures Preserves(old(m.next), old(m.prev), m.next, m.prev, [head] + sa + sb)
    ensures a' != Nil ==> i + 1 < |sa| && a' == sa[i + 1]
    ensures a' != Nil ==> Finishing(m.next, m.prev, vals, head, sa, sb, i + 1, j, t + [sa[i]], tail')
    ensures a' == Nil ==> Finished(m.next, m.prev, vals, head, sa, sb, t + [sa[i]], tail', sb[j..], b)
  {
    ghost var n0, p0 := m.next, m.prev;
    MergeStepA(vals, sa, sb, i, j);
    AppendAssoc(t, [sa[i]], Merge(vals, sa[i + 1..], sb[j..]));
    TakenApart(vals, sa, sb, i, j, t);
    assert tail !in sa[i..] && tail !in sb[j..];
    ChainUpdate(m.next, sa[i..], tail, a);
    ChainUpdate(m.next, sb[j..], tail, a);
    FrontRelink(m.next, m.prev, head, t, a);
    m.next := m.next[tail := a];
    FrontExtend(m.next, m.prev, head, t, a);
    m.prev := m.prev[a := tail];
    assert tail in [head] + sa + sb && a in [head] + sa + sb;
    RelinkTouch(n0, p0, tail, a, [head] + sa + sb);
    tail' := a;
    ChainRest(m.next, sa, i);
    a' := m.next[a];
    if a' == Nil {
      assert sa[i + 1..] == [];
      TakenApart(vals, sa, sb, i + 1, j, t + [sa[i]]);
      assert (t + [sa[i]]) + Merge(vals, sa[i + 1..], sb[j..]) == (t + [sa[i]]) + sb[j..];
      DistinctConcat(t + [sa[i]], sb[j..]);
    } else {
      assert sa[i + 1..][0] == sa[i + 1];
    }
  }

  /** One pass of `merge_final` that takes b: `tail->next = b; b->prev = tail; tail = b; b = b->next;`. */
  method FinalTakeB(m: Heap, head: int, tail: int, a: int, b: int,
                    ghost vals: Values, ghost sa: seq<int>, ghost sb: seq<int>, ghost i: int, ghost j: int, ghost t: seq<int>)
    returns (tail': int, b': int)
    requires Finishing(m.next, m.prev, vals, head, sa, sb, i, j, t, tail) && a == sa[i] && b == sb[j]
    requires !Le(vals, a, b)
    modifies m
    ensures m.val == old(m.val)
    ensures Preserves(old(m.next), old(m.prev), m.next, m.prev, [head] + sa + sb)
    ensures b' != Nil ==> j + 1 < |sb| && b' == sb[j + 1]
    ensures b' != Nil ==> Finishing(m.next, m.prev, vals, head, sa, sb, i, j + 1, t + [sb[j]], tail')
    ensures b' == Nil ==> Finished(m.next, m.prev, vals, head, sa, sb, t + [sb[j]], tail', sa[i..], a)
  {
    ghost var n0, p0 := m.next, m.prev;
    MergeStepB(vals, sa, sb, i, j);
    AppendAssoc(t, [sb[j]], Merge(vals, sa[i..], sb[j + 1..]));
    TakenApart(vals, sa, sb, i, j, t);
    assert tail !in sa[i..] && tail !in sb[j..];
    ChainUpdate(m.next, sa[i..], tail, b);
    ChainUpdate(m.next, sb[j..], tail, b);
    FrontRelink(m.next, m.prev, head, t, b);
    m.next := m.next[tail := b];
    FrontExtend(m.next, m.prev, head, t, b);
    m.prev := m.prev[b := tail];
    assert tail in [head] + sa + sb && b in [head] + sa + sb;
    RelinkTouch(n0, p0, tail, b, [head] + sa + sb);
    tail' := b;
    ChainRest(m.next, sb, j);
    b' := m.next[b];
    if b' == Nil {
      assert sb[j + 1..] == [];
      TakenApart(vals, sa, sb, i, j + 1, t + [sb[j]]);
      assert (t + [sb[j]]) + Merge(vals, sa[i..], sb[j + 1..]) == (t + [sb[j]]) + sa[i..];
      DistinctConcat(t + [sb[j]], sa[i..]);
    } else {
      assert sb[j + 1..][0] == sb[j + 1];
    }
  }

  /**
   * `merge_final(head, a, b)`: the chains a and b are merged behind head, a's
   * node first on equal strings, with the `prev` links rebuilt and the circle
   * closed; nothing happens when either is NULL or both are the same node.
   */
  method MergeFinal(m: Heap, head: int, a: int, b: int, ghost sa: seq<int>, ghost sb: seq<int>)
    requires Chain(m.next, sa) && Chain(m.next, sb) && a == Head(sa) && b == Head(sb)
    requires a == b || Disjoint(sa, sb)
    requires |m.next| == |m.prev| && 0 <= head < |m.next| && head !in sa && head !in sb
    modifies m
    ensures m.val == old(m.val)
    ensures Preserves(old(m.next), old(m.prev), m.next, m.prev, [head] + sa + sb)
    ensures a == Nil || b == Nil || a == b ==> m.next == old(m.next) && m.prev == old(m.prev)
    ensures a != Nil && b != Nil && a != b ==> m.IsQueue(head, Merge(m.val, sa, sb))
  {
    if a == Nil || b == Nil || a == b {
      return;
    }
    ghost var vals := m.val;
    FinishStart(m.next, m.prev, vals, head, sa, sb);
    var tail, x, y := head, a, b;
    ghost var i, j, t := 0, 0, [];
    ghost var tf, rf := [], [];
    while true
      invariant Finishing(m.next, m.prev, vals, head, sa, sb, i, j, t, tail) && x == sa[i] && y == sb[j]
      invariant m.val == vals && Preserves(old(m.next), old(m.prev), m.next, m.prev, [head] + sa + sb)
      decreases |sa| + |sb| - i - j
    {
      ghost var n1, p1 := m.next, m.prev;
      assert x in sa && y in sb;
      TimCompareZero(vals, x, y);
      if TimCompare(m.val, x, y) <= 0 {
        tail, x := FinalTakeA(m, head, tail, x, y, vals, sa, sb, i, j, t);
        PreservesTrans(old(m.next), old(m.prev), n1, p1, m.next, m.prev, [head] + sa + sb, [head] + sa + sb, [head] + sa + sb);
        if x == Nil {
          tf, rf := t + [sa[i]], sb[j..];
          break;
        }
        t, i := t + [sa[i]], i + 1;
      } else {
        tail, y := FinalTakeB(m, head, tail, x, y, vals, sa, sb, i, j, t);
        PreservesTrans(old(m.next), old(m.prev), n1, p1, m.next, m.prev, [head] + sa + sb, [head] + sa + sb, [head] + sa + sb);
        if y == Nil {
          y := x;
          tf, rf := t + [sb[j]], sa[i..];
          break;
        }
        t, j := t + [sb[j]], j + 1;
      }
    }
    ghost var n2, p2 := m.next, m.prev;
    FinishBuild(m, head, tail, y, vals, sa, sb, tf, rf);
    PreservesTrans(old(m.next), old(m.prev), n2, p2, m.next, m.prev, [head] + sa + sb, [head] + sa + sb, [head] + sa + sb);
  }

  /** `build_prev_link(head, tail, b)` at the end of `merge_final`. */
  method FinishBuild(m: Heap, head: int, tail: int, rest: int, ghost vals: Values, ghost sa: seq<int>, ghost sb: seq<int>,
                     ghost t: seq<int>, ghost r: seq<int>)
    requires Finished(m.next, m.prev, vals, head, sa, sb, t, tail, r, rest)
    modifies m
    ensures m.val == old(m.val) && m.IsQueue(head, Merge(vals, sa, sb))
    ensures Preserves(old(m.next), old(m.prev), m.next, m.prev, [head] + sa + sb)
  {
    BuildPrevLink(m, head, tail, rest, t, r);
    MergeTouches(old(m.next), old(m.prev), m.next, m.prev, vals, head, sa, sb, t + r);
  }

  /** Whatever touches only the merge of sa and sb touches only sa and sb. */
  lemma MergeTouches(n0: seq<int>, p0: seq<int>, n1: seq<int>, p1: seq<int>, vals: Values,
                     head: int, sa: seq<int>, sb: seq<int>, u: seq<int>)
    requires u == Merge(vals, sa, sb) && Preserves(n0, p0, n1, p1, [head] + u)
    ensures Preserves(n0, p0, n1, p1, [head] + sa + sb)
  {
    MergePerm(vals, sa, sb);
    forall y | 0 <= y < |n0| && y !in [head] + sa + sb ensures n1[y] == n0[y] && p1[y] == p0[y] {
      assert y !in multiset(u);
      assert y !in [head] + u;
    }
  }

  // ---------------------------------------------------------------------------
  // The run stack

  /** The sum of the stored run lengths. */
  function StackLen(stack: seq<Run>): nat
  {
    if stack == [] then 0 else StackLen(stack[..|stack| - 1]) + stack[|stack| - 1].len
  }

  /**
   * Positions in the input order where the stacked runs begin, followed by c,
   * the number of nodes consumed so far: they start at 0 and strictly increase.
   */
  ghost predicate Cuts(cuts: seq<int>, c: int, n: int) {
    && |cuts| >= 1 && cuts[0] == 0 && cuts[|cuts| - 1] == c && c <= n
    && forall i, j :: 0 <= i < j < |cuts| ==> cuts[i] < cuts[j]
  }

  /** The run r holds the nodes of seg, stably sorted and linked as a chain, and stores their number. */
  ghost predicate RunOf(nxt: seq<int>, vals: Values, seg: seq<int>, r: Run) {
    && seg != [] && Chain(nxt, MergeSortOrder(vals, seg))
    && r.head == MergeSortOrder(vals, seg)[0] && r.len == |seg|
  }

  /**
   * The stack holds the first c nodes of the input order s, bottom run first:
   * its k-th run holds the nodes from position cuts[k] up to cuts[k + 1].
   */
  ghost predicate Stacked(nxt: seq<int>, vals: Values, s: seq<int>, stack: seq<Run>, cuts: seq<int>, c: int) {
    && Distinct(s) && |cuts| == |stack| + 1 && Cuts(cuts, c, |s|)
    && forall k {:trigger stack[k]} :: 0 <= k < |stack| ==> RunOf(nxt, vals, s[cuts[k]..cuts[k + 1]], stack[k])
  }

  lemma {:induction false} StackLenPrefix(stack: seq<Run>, cuts: seq<int>, k: int)
    requires |cuts| == |stack| + 1 && cuts[0] == 0 && 0 <= k <= |stack|
    requires forall j :: 0 <= j < |stack| ==> stack[j].len == cuts[j + 1] - cuts[j]
    ensures StackLen(stack[..k]) == cuts[k]
    decreases k
  {
    if k > 0 {
      StackLenPrefix(stack, cuts, k - 1);
      assert stack[..k][..k - 1] == stack[..k - 1];
    }
  }

  /** The stored lengths add up to the number of nodes consumed: no node is lost or counted twice. */
  lemma StackedSum(nxt: seq<int>, vals: Values, s: seq<int>, stack: seq<Run>, cuts: seq<int>, c: int)
    requires Stacked(nxt, vals, s, stack, cuts, c)
    ensures StackLen(stack) == c
  {
    forall j | 0 <= j < |stack| ensures stack[j].len == cuts[j + 1] - cuts[j] {
      assert RunOf(nxt, vals, s[cuts[j]..cuts[j + 1]], stack[j]);
    }
    StackLenPrefix(stack, cuts, |stack|);
    assert stack[..|stack|] == stack;
  }

  /** Stretches of a distinct order at disjoint positions share no node. */
  lemma SegApart(s: seq<int>, i1: int, j1: int, i2: int, j2: int)
    requires Distinct(s) && 0 <= i1 <= j1 <= i2 <= j2 <= |s|
    ensures forall x :: x in s[i1..j1] ==> x !in s[i2..j2]
    ensures forall x :: x in s[i2..j2] ==> x !in s[i1..j1]
  {
    forall x | x in s[i1..j1] ensures x !in s[i2..j2] {
      var a :| 0 <= a < j1 - i1 && s[i1..j1][a] == x;
      assert s[i1 + a] == x;
      forall b | 0 <= b < j2 - i2 ensures s[i2..j2][b] != x {
        assert s[i2..j2][b] == s[i2 + b];
      }
    }
  }

  /** A chain none of whose nodes was touched is still a chain. */
  lemma ChainKept(n0: seq<int>, p0: seq<int>, n1: seq<int>, p1: seq<int>, c: seq<int>, t: seq<int>)
    requires Chain(n0, c) && Preserves(n0, p0, n1, p1, t) && |n1| == |n0|
    requires forall x :: x in c ==> x !in t
    ensures Chain(n1, c)
  {
    forall i | 0 <= i < |c| ensures n1[c[i]] == n0[c[i]] {
      assert c[i] in c;
    }
    ChainFrame(n0, n1, c);
  }

  /** A run none of whose nodes was touched is still the same run. */
  lemma RunKept(n0: seq<int>, p0: seq<int>, n1: seq<int>, p1: seq<int>, vals: Values, seg: seq<int>, r: Run, t: seq<int>)
    requires RunOf(n0, vals, seg, r) && Preserves(n0, p0, n1, p1, t) && |n1| == |n0|
    requires forall x :: x in seg ==> x !in t
    ensures RunOf(n1, vals, seg, r)
  {
    var c := MergeSortOrder(vals, seg);
    forall x | x in c ensures x !in t {
      assert x in multiset(seg);
    }
    ChainKept(n0, p0, n1, p1, c, t);
  }

  /** `run_size` of every stacked run is its number of nodes. */
  lemma StackSizes(m: Heap, s: seq<int>, stack: seq<Run>, cuts: seq<int>, c: int)
    requires Stacked(m.next, m.val, s, stack, cuts, c)
    ensures forall k :: 0 <= k < |stack| ==> 0 <= stack[k].head < |m.next| && RunSize(m, stack[k]) == stack[k].len
  {
    forall k | 0 <= k < |stack| ensures 0 <= stack[k].head < |m.next| && RunSize(m, stack[k]) == stack[k].len {
      CutBounds(cuts, c, |s|, k);
      RunSized(m, s[cuts[k]..cuts[k + 1]], stack[k]);
    }
  }

  /** `run_size` of a run that holds seg is its stored length. */
  lemma RunSized(m: Heap, seg: seq<int>, r: Run)
    requires RunOf(m.next, m.val, seg, r)
    ensures 0 <= r.head < |m.next| && RunSize(m, r) == r.len
  {
    var o := MergeSortOrder(m.val, seg);
    assert |o| == |seg| by {
      assert |multiset(o)| == |multiset(seg)|;
    }
    RunSizeCounts(m, r, o);
  }

  /** Consecutive cuts bound a non-empty segment of what has been consumed. */
  lemma CutBounds(cuts: seq<int>, c: int, n: int, q: int)
    requires Cuts(cuts, c, n) && 0 <= q < |cuts| - 1
    ensures 0 <= cuts[q] < cuts[q + 1] <= c <= n
  {
    if q > 0 {
      assert cuts[0] < cuts[q];
    }
    if q + 1 < |cuts| - 1 {
      assert cuts[q + 1] < cuts[|cuts| - 1];
    }
  }

  /**
   * Pushing what `find_run` found on the rest of the input keeps the stack
   * invariant; the chain after the run is the new rest.
   */
  lemma StackPush(n0: seq<int>, p0: seq<int>, n1: seq<int>, p1: seq<int>, vals: Values, s: seq<int>,
                  stack: seq<Run>, cuts: seq<int>, c: int, run: Run, rest: int, c1: int)
    requires Stacked(n0, vals, s, stack, cuts, c) && c < |s|
    requires Preserves(n0, p0, n1, p1, s[c..]) && |n1| == |n0|
    requires FoundRun(n1, vals, s[c..], run, rest) && c1 == c + run.len
    ensures c < c1 <= |s|
    ensures Stacked(n1, vals, s, stack + [run], cuts + [c1], c1)
    ensures Chain(n1, s[c1..]) && rest == Head(s[c1..])
  {
    PushedRun(n1, vals, s, c, run, rest, c1);
    PushCuts(cuts, c, |s|, c1);
    KeptRuns(n0, p0, n1, p1, vals, s, stack, cuts, c);
    Restacked(n1, vals, s, stack, cuts, c, run, c1);
  }

  /** The stack invariant for a stack with one more run on top, holding the nodes from c up to c1. */
  lemma Restacked(nxt: seq<int>, vals: Values, s: seq<int>, stack: seq<Run>, cuts: seq<int>, c: int, run: Run, c1: int)
    requires Distinct(s) && |cuts| == |stack| + 1 && Cuts(cuts, c, |s|) && Cuts(cuts + [c1], c1, |s|)
    requires forall q :: 0 <= q < |stack| ==> RunOf(nxt, vals, s[cuts[q]..cuts[q + 1]], stack[q])
    requires c < c1 <= |s| && RunOf(nxt, vals, s[c..c1], run)
    ensures Stacked(nxt, vals, s, stack + [run], cuts + [c1], c1)
  {
    var st, cu := stack + [run], cuts + [c1];
    forall q | 0 <= q < |st| ensures RunOf(nxt, vals, s[cu[q]..cu[q + 1]], st[q]) {
      PushIndex(stack, cuts, c, run, c1, q);
      if q < |stack| {
        assert RunOf(nxt, vals, s[cuts[q]..cuts[q + 1]], stack[q]);
      }
    }
  }

  /** Where entry q of the pushed stack comes from: entry q of the old stack, or the new run from c to c1. */
  lemma PushIndex(stack: seq<Run>, cuts: seq<int>, c: int, run: Run, c1: int, q: int)
    requires |cuts| == |stack| + 1 && cuts[|cuts| - 1] == c && 0 <= q <= |stack|
    ensures var st, cu := stack + [run], cuts + [c1];
      && (q < |stack| ==> cu[q] == cuts[q] && cu[q + 1] == cuts[q + 1] && st[q] == stack[q])
      && (q == |stack| ==> cu[q] == c && cu[q + 1] == c1 && st[q] == run)
  {
  }

  /** The run `find_run` found at position c is the stable sort of the nodes from c on that it consumed. */
  lemma PushedRun(nxt: seq<int>, vals: Values, s: seq<int>, c: int, run: Run, rest: int, c1: int)
    requires 0 <= c < |s| && FoundRun(nxt, vals, s[c..], run, rest) && c1 == c + run.len
    ensures c < c1 <= |s| && RunOf(nxt, vals, s[c..c1], run)
    ensures Chain(nxt, s[c1..]) && rest == Head(s[c1..])
  {
    FoundRunOf(nxt, vals, s[c..], run, rest);
    SuffixSlices(s, c, run.len, c1);
  }

  /** The first k nodes from c on, and the nodes after them, as slices of s. */
  lemma SuffixSlices(s: seq<int>, c: int, k: int, c1: int)
    requires 0 <= c <= |s| && 0 <= k <= |s| - c && c1 == c + k
    ensures s[c..][..k] == s[c..c1] && s[c..][k..] == s[c1..]
  {
  }

  /** What `find_run` found is a run of the nodes it consumed, and the rest is still a chain. */
  lemma FoundRunOf(nxt: seq<int>, vals: Values, u: seq<int>, run: Run, rest: int)
    requires FoundRun(nxt, vals, u, run, rest)
    ensures run.len <= |u| && RunOf(nxt, vals, u[..run.len], run)
    ensures Chain(nxt, u[run.len..]) && rest == Head(u[run.len..])
  {
    RunOrderSorts(vals, u);
  }

  /** One more cut past the last keeps the cuts increasing. */
  lemma PushCuts(cuts: seq<int>, c: int, n: int, c1: int)
    requires Cuts(cuts, c, n) && c < c1 <= n
    ensures Cuts(cuts + [c1], c1, n)
  {
    var cu := cuts + [c1];
    forall i, j | 0 <= i < j < |cu| ensures cu[i] < cu[j] {
      if j < |cuts| {
        assert cu[i] == cuts[i] && cu[j] == cuts[j];
      } else if i < |cuts| - 1 {
        assert cuts[i] < cuts[|cuts| - 1];
      }
    }
  }

  /** Runs whose nodes all lie before position c are untouched by what happens from c on. */
  lemma KeptRuns(n0: seq<int>, p0: seq<int>, n1: seq<int>, p1: seq<int>, vals: Values, s: seq<int>,
                 stack: seq<Run>, cuts: seq<int>, c: int)
    requires Stacked(n0, vals, s, stack, cuts, c)
    requires Preserves(n0, p0, n1, p1, s[c..]) && |n1| == |n0|
    ensures forall q :: 0 <= q < |stack| ==> RunOf(n1, vals, s[cuts[q]..cuts[q + 1]], stack[q])
  {
    forall q | 0 <= q < |stack| ensures RunOf(n1, vals, s[cuts[q]..cuts[q + 1]], stack[q]) {
      assert cuts[q + 1] <= c;
      SegApart(s, cuts[q], cuts[q + 1], c, |s|);
      assert s[c..|s|] == s[c..];
      RunKept(n0, p0, n1, p1, vals, s[cuts[q]..cuts[q + 1]], stack[q], s[c..]);
    }
  }

  /** Dropping an inner cut keeps the cuts increasing. */
  lemma DropCut(cuts: seq<int>, c: int, n: int, at: int)
    requires Cuts(cuts, c, n) && 1 <= at < |cuts| - 1
    ensures Cuts(cuts[..at] + cuts[at + 1..], c, n)
  {
    var cu := cuts[..at] + cuts[at + 1..];
    forall i | 0 <= i < |cu| ensures cu[i] == (if i < at then cuts[i] else cuts[i + 1]) {
    }
  }

  /** Two adjacent stacked runs hold disjoint, non-empty sets of nodes, with distinct first nodes. */
  lemma AdjacentRuns(nxt: seq<int>, vals: Values, s: seq<int>, stack: seq<Run>, cuts: seq<int>, c: int, at: int)
    requires Stacked(nxt, vals, s, stack, cuts, c) && 1 <= at < |stack|
    ensures var a, b := MergeSortOrder(vals, s[cuts[at - 1]..cuts[at]]), MergeSortOrder(vals, s[cuts[at]..cuts[at + 1]]);
      && RunOf(nxt, vals, s[cuts[at - 1]..cuts[at]], stack[at - 1]) && RunOf(nxt, vals, s[cuts[at]..cuts[at + 1]], stack[at])
      && Disjoint(a, b) && stack[at - 1].head == Head(a) && stack[at].head == Head(b)
      && stack[at - 1].head != Nil && stack[at].head != Nil && stack[at - 1].head != stack[at].head
    ensures 0 <= cuts[at - 1] < cuts[at] < cuts[at + 1] <= c <= |s|
  {
    var i, j, k := cuts[at - 1], cuts[at], cuts[at + 1];
    assert i < j < k;
    assert RunOf(nxt, vals, s[i..j], stack[at - 1]) && RunOf(nxt, vals, s[j..k], stack[at]);
    RunHead(nxt, vals, s[i..j], stack[at - 1]);
    RunHead(nxt, vals, s[j..k], stack[at]);
    SortedApart(vals, s, i, j, k);
    HeadsApart(MergeSortOrder(vals, s[i..j]), MergeSortOrder(vals, s[j..k]));
  }

  /** The head of a run is the first node of its chain, a node of the store. */
  lemma RunHead(nxt: seq<int>, vals: Values, seg: seq<int>, r: Run)
    requires RunOf(nxt, vals, seg, r)
    ensures MergeSortOrder(vals, seg) != [] && r.head == Head(MergeSortOrder(vals, seg)) && 0 <= r.head < |nxt|
  {
  }

  /** Stretches at disjoint positions of a distinct order sort into orders with no node in common. */
  lemma SortedApart(vals: Values, s: seq<int>, i: int, j: int, k: int)
    requires Distinct(s) && 0 <= i <= j <= k <= |s|
    ensures Disjoint(MergeSortOrder(vals, s[i..j]), MergeSortOrder(vals, s[j..k]))
  {
    SegApart(s, i, j, j, k);
    MembersApart(s[i..j], s[j..k], MergeSortOrder(vals, s[i..j]), MergeSortOrder(vals, s[j..k]));
  }

  /** Orders with the same nodes as two orders with no node in common have none in common either. */
  lemma MembersApart(u: seq<int>, v: seq<int>, a: seq<int>, b: seq<int>)
    requires forall x :: x in u ==> x !in v
    requires multiset(a) == multiset(u) && multiset(b) == multiset(v)
    ensures Disjoint(a, b)
  {
    forall x | x in a ensures x !in b {
      assert x in multiset(u);
      assert x in u;
      assert x !in multiset(v);
    }
  }

  /** Non-empty orders with no node in common start with different nodes. */
  lemma HeadsApart(a: seq<int>, b: seq<int>)
    requires Disjoint(a, b) && a != [] && b != []
    ensures a[0] != b[0]
  {
    assert a[0] in a;
  }

  /** The merge of two adjacent runs is the run of the nodes of both. */
  lemma MergedRun(nxt: seq<int>, vals: Values, s: seq<int>, i: int, j: int, k: int, list: int)
    requires 0 <= i < j < k <= |s|
    requires Chain(nxt, Merge(vals, MergeSortOrder(vals, s[i..j]), MergeSortOrder(vals, s[j..k])))
    requires list == Head(Merge(vals, MergeSortOrder(vals, s[i..j]), MergeSortOrder(vals, s[j..k])))
    ensures RunOf(nxt, vals, s[i..k], Run(list, (j - i) + (k - j)))
  {
    var r := MergeSortOrder(vals, s[i..k]);
    MergeAdjacent(vals, s, i, j, k);
    assert |r| == k - i by {
      assert |multiset(r)| == |multiset(s[i..k])|;
    }
  }

  /** Merging the sorts of two adjacent stretches sorts the stretch they make up. */
  lemma MergeAdjacent(vals: Values, s: seq<int>, i: int, j: int, k: int)
    requires 0 <= i <= j <= k <= |s|
    ensures Merge(vals, MergeSortOrder(vals, s[i..j]), MergeSortOrder(vals, s[j..k])) == MergeSortOrder(vals, s[i..k])
  {
    assert s[i..j] + s[j..k] == s[i..k];
    MergeSortOrderConcat(vals, s[i..j], s[j..k]);
  }

  /** Runs other than the two merged are untouched by the merge. */
  lemma KeptAround(n0: seq<int>, p0: seq<int>, n1: seq<int>, p1: seq<int>, vals: Values, s: seq<int>,
                   stack: seq<Run>, cuts: seq<int>, c: int, at: int)
    requires Stacked(n0, vals, s, stack, cuts, c) && 1 <= at < |stack|
    requires Preserves(n0, p0, n1, p1, s[cuts[at - 1]..cuts[at + 1]]) && |n1| == |n0|
    ensures forall q :: 0 <= q < |stack| && q != at - 1 && q != at ==>
      RunOf(n1, vals, s[cuts[q]..cuts[q + 1]], stack[q])
  {
    forall q | 0 <= q < |stack| && q != at - 1 && q != at
      ensures RunOf(n1, vals, s[cuts[q]..cuts[q + 1]], stack[q])
    {
      KeptOne(n0, p0, n1, p1, vals, s, stack, cuts, c, at, q);
    }
  }

  lemma KeptOne(n0: seq<int>, p0: seq<int>, n1: seq<int>, p1: seq<int>, vals: Values, s: seq<int>,
                stack: seq<Run>, cuts: seq<int>, c: int, at: int, q: int)
    requires Stacked(n0, vals, s, stack, cuts, c) && 1 <= at < |stack|
    requires Preserves(n0, p0, n1, p1, s[cuts[at - 1]..cuts[at + 1]]) && |n1| == |n0|
    requires 0 <= q < |stack| && q != at - 1 && q != at
    ensures RunOf(n1, vals, s[cuts[q]..cuts[q + 1]], stack[q])
  {
    var lo, hi := cuts[at - 1], cuts[at + 1];
    var seg := s[cuts[q]..cuts[q + 1]];
    assert RunOf(n0, vals, seg, stack[q]);
    if q < at - 1 {
      assert cuts[q + 1] <= lo;
      SegApart(s, cuts[q], cuts[q + 1], lo, hi);
    } else {
      assert hi <= cuts[q];
      SegApart(s, lo, hi, cuts[q], cuts[q + 1]);
    }
    RunKept(n0, p0, n1, p1, vals, seg, stack[q], s[lo..hi]);
  }

  /** Whatever touches only the nodes of two runs touches only the stretch of the input they came from. */
  lemma RunsTouch(n0: seq<int>, p0: seq<int>, n1: seq<int>, p1: seq<int>, vals: Values, s: seq<int>, i: int, j: int, k: int)
    requires 0 <= i <= j <= k <= |s|
    requires Preserves(n0, p0, n1, p1, MergeSortOrder(vals, s[i..j]) + MergeSortOrder(vals, s[j..k]))
    ensures Preserves(n0, p0, n1, p1, s[i..k])
  {
    AdjacentPerm(vals, s, i, j, k);
    SameNodesTouch(n0, p0, n1, p1, MergeSortOrder(vals, s[i..j]) + MergeSortOrder(vals, s[j..k]), s[i..k]);
  }

  /** The sorts of two adjacent stretches hold the nodes of the stretch they make up. */
  lemma AdjacentPerm(vals: Values, s: seq<int>, i: int, j: int, k: int)
    requires 0 <= i <= j <= k <= |s|
    ensures multiset(MergeSortOrder(vals, s[i..j]) + MergeSortOrder(vals, s[j..k])) == multiset(s[i..k])
  {
    assert s[i..j] + s[j..k] == s[i..k];
  }

  /** Touching only the nodes of u is touching only the nodes of any w with the same nodes. */
  lemma SameNodesTouch(n0: seq<int>, p0: seq<int>, n1: seq<int>, p1: seq<int>, u: seq<int>, w: seq<int>)
    requires Preserves(n0, p0, n1, p1, u) && multiset(u) == multiset(w)
    ensures Preserves(n0, p0, n1, p1, w)
  {
    forall y | 0 <= y < |n0| && y !in w ensures n1[y] == n0[y] && p1[y] == p0[y] {
      assert y !in multiset(w);
      assert y !in u;
    }
  }

  /** Touching only s[i..k] is touching only s[..c] for any c from k on. */
  lemma StretchTouch(n0: seq<int>, p0: seq<int>, n1: seq<int>, p1: seq<int>, s: seq<int>, i: int, k: int, c: int)
    requires 0 <= i <= k <= c <= |s| && Preserves(n0, p0, n1, p1, s[i..k])
    ensures Preserves(n0, p0, n1, p1, s[..c])
  {
    forall y | y in s[i..k] ensures y in s[..c] {
      var q :| 0 <= q < k - i && s[i..k][q] == y;
      assert s[..c][i + q] == y;
    }
  }

  /**
   * Replacing two adjacent runs by the chain their merge left, with the sum
   * of their lengths, keeps the stack invariant: `merge_at`'s effect on the
   * stack.
   */
  lemma StackMerge(n0: seq<int>, p0: seq<int>, n1: seq<int>, p1: seq<int>, vals: Values, s: seq<int>,
                   stack: seq<Run>, cuts: seq<int>, c: int, at: int, r: Run)
    requires Stacked(n0, vals, s, stack, cuts, c) && 1 <= at < |stack| && |n1| == |n0|
    requires Preserves(n0, p0, n1, p1,
      MergeSortOrder(vals, s[cuts[at - 1]..cuts[at]]) + MergeSortOrder(vals, s[cuts[at]..cuts[at + 1]]))
    requires Chain(n1, Merge(vals, MergeSortOrder(vals, s[cuts[at - 1]..cuts[at]]), MergeSortOrder(vals, s[cuts[at]..cuts[at + 1]])))
    requires r.head == Head(Merge(vals, MergeSortOrder(vals, s[cuts[at - 1]..cuts[at]]), MergeSortOrder(vals, s[cuts[at]..cuts[at + 1]])))
    requires r.len == stack[at - 1].len + stack[at].len
    ensures Stacked(n1, vals, s, stack[..at - 1] + [r] + stack[at + 1..], cuts[..at] + cuts[at + 1..], c)
    ensures Preserves(n0, p0, n1, p1, s[cuts[at - 1]..cuts[at + 1]]) && Preserves(n0, p0, n1, p1, s[..c])
  {
    AdjacentRuns(n0, vals, s, stack, cuts, c, at);
    var i, j, k := cuts[at - 1], cuts[at], cuts[at + 1];
    RunsTouch(n0, p0, n1, p1, vals, s, i, j, k);
    StretchTouch(n0, p0, n1, p1, s, i, k, c);
    KeptAround(n0, p0, n1, p1, vals, s, stack, cuts, c, at);
    MergedRun(n1, vals, s, i, j, k, r.head);
    Restack(n1, vals, s, stack, cuts, c, at, r);
  }

  /** The stack invariant for a stack whose runs at - 1 and at became one run. */
  lemma Restack(nxt: seq<int>, vals: Values, s: seq<int>, stack: seq<Run>, cuts: seq<int>, c: int, at: int, r: Run)
    requires Distinct(s) && |cuts| == |stack| + 1 && Cuts(cuts, c, |s|) && 1 <= at < |stack|
    requires forall q :: 0 <= q < |stack| && q != at - 1 && q != at ==>
      RunOf(nxt, vals, s[cuts[q]..cuts[q + 1]], stack[q])
    requires RunOf(nxt, vals, s[cuts[at - 1]..cuts[at + 1]], r)
    ensures Stacked(nxt, vals, s, stack[..at - 1] + [r] + stack[at + 1..], cuts[..at] + cuts[at + 1..], c)
  {
    DropCut(cuts, c, |s|, at);
    var st, cu := stack[..at - 1] + [r] + stack[at + 1..], cuts[..at] + cuts[at + 1..];
    forall q | 0 <= q < |st| ensures RunOf(nxt, vals, s[cu[q]..cu[q + 1]], st[q]) {
      RestackOne(nxt, vals, s, stack, cuts, c, at, r, q);
    }
  }

  /** Entry q of the merged stack holds its segment. */
  lemma RestackOne(nxt: seq<int>, vals: Values, s: seq<int>, stack: seq<Run>, cuts: seq<int>, c: int, at: int, r: Run, q: int)
    requires |cuts| == |stack| + 1 && Cuts(cuts, c, |s|) && 1 <= at < |stack| && 0 <= q < |stack| - 1
    requires Cuts(cuts[..at] + cuts[at + 1..], c, |s|)
    requires forall q :: 0 <= q < |stack| && q != at - 1 && q != at ==>
      RunOf(nxt, vals, s[cuts[q]..cuts[q + 1]], stack[q])
    requires RunOf(nxt, vals, s[cuts[at - 1]..cuts[at + 1]], r)
    ensures var st, cu := stack[..at - 1] + [r] + stack[at + 1..], cuts[..at] + cuts[at + 1..];
      0 <= cu[q] <= cu[q + 1] <= |s| && RunOf(nxt, vals, s[cu[q]..cu[q + 1]], st[q])
  {
    CutBounds(cuts[..at] + cuts[at + 1..], c, |s|, q);
    var q0 := RestackIndex(stack, cuts, at, r, q);
    if q != at - 1 {
      CutBounds(cuts, c, |s|, q0);
      assert RunOf(nxt, vals, s[cuts[q0]..cuts[q0 + 1]], stack[q0]);
    }
  }

  /**
   * Where entry q of the merged stack comes from: entry q0 of the old stack,
   * or the merged run r spanning cuts[at - 1] to cuts[at + 1].
   */
  lemma RestackIndex(stack: seq<Run>, cuts: seq<int>, at: int, r: Run, q: int) returns (q0: int)
    requires |cuts| == |stack| + 1 && 1 <= at < |stack| && 0 <= q < |stack| - 1
    ensures var st, cu := stack[..at - 1] + [r] + stack[at + 1..], cuts[..at] + cuts[at + 1..];
      && 0 <= q0 < |stack| && (q == at - 1 <==> q0 == at - 1)
      && (q == at - 1 ==> cu[q] == cuts[at - 1] && cu[q + 1] == cuts[at + 1] && st[q] == r)
      && (q != at - 1 ==> q0 != at && cu[q] == cuts[q0] && cu[q + 1] == cuts[q0 + 1] && st[q] == stack[q0])
  {
    q0 := if q < at then q else q + 1;
  }

  /**
   * `merge_at`: merges the run at position `at` of the stack with the run
   * pushed just before it (which wins ties), and puts the merged run, whose
   * length is the sum of the two `run_size`s, in their place. The stack
   * shrinks by one and its other runs are untouched.
   */
  method MergeAt(m: Heap, stack: seq<Run>, at: int, ghost s: seq<int>, ghost cuts: seq<int>, ghost c: int)
    returns (st: seq<Run>, ghost cu: seq<int>)
    requires Stacked(m.next, m.val, s, stack, cuts, c) && 1 <= at < |stack| && |m.next| == |m.prev|
    modifies m
    ensures m.prev == old(m.prev) && m.val == old(m.val)
    ensures Preserves(old(m.next), old(m.prev), m.next, m.prev, s[cuts[at - 1]..cuts[at + 1]])
    ensures Preserves(old(m.next), old(m.prev), m.next, m.prev, s[..c])
    ensures |st| == |stack| - 1 && st[..at - 1] == stack[..at - 1] && st[at..] == stack[at + 1..]
    ensures st[at - 1].len == stack[at - 1].len + stack[at].len
    ensures cu == cuts[..at] + cuts[at + 1..] && Stacked(m.next, m.val, s, st, cu, c)
  {
    StackSizes(m, s, stack, cuts, c);
    var len := RunSize(m, stack[at]) + RunSize(m, stack[at - 1]);
    assert len == stack[at - 1].len + stack[at].len;
    AdjacentRuns(m.next, m.val, s, stack, cuts, c, at);
    ghost var n0, p0 := m.next, m.prev;
    ghost var a, b := MergeSortOrder(m.val, s[cuts[at - 1]..cuts[at]]), MergeSortOrder(m.val, s[cuts[at]..cuts[at + 1]]);
    var list := MergeChains(m, stack[at - 1].head, stack[at].head, a, b);
    st := stack[..at - 1] + [Run(list, len)] + stack[at + 1..];
    cu := cuts[..at] + cuts[at + 1..];
    StackMerge(n0, p0, m.next, m.prev, m.val, s, stack, cuts, c, at, Run(list, len));
  }

  /**
   * The shape `merge_collapse` leaves on top of the stack, reading the runs
   * from the top as C1, C2, C3, C4: C2 > C1, C3 > C2 + C1 and C4 > C3 + C2,
   * each where the stack is deep enough.
   */
  predicate Balanced(stack: seq<Run>)
  {
    var n := |stack|;
    n < 2 || (stack[n - 2].len > stack[n - 1].len
      && (n >= 3 ==> stack[n - 3].len > stack[n - 2].len + stack[n - 1].len)
      && (n >= 4 ==> stack[n - 4].len > stack[n - 3].len + stack[n - 2].len))
  }

  /**
   * `merge_collapse`: merges runs near the top of the stack until the top
   * is Balanced, merging C3 with C2 when C3 is shorter than C1 and C2 with
   * C1 otherwise.
   */
  method MergeCollapse(m: Heap, stack: seq<Run>, ghost s: seq<int>, ghost cuts: seq<int>, ghost c: int)
    returns (st: seq<Run>, ghost cu: seq<int>)
    requires Stacked(m.next, m.val, s, stack, cuts, c) && |m.next| == |m.prev|
    modifies m
    ensures m.prev == old(m.prev) && m.val == old(m.val)
    ensures Preserves(old(m.next), old(m.prev), m.next, m.prev, s[..c])
    ensures Stacked(m.next, m.val, s, st, cu, c) && Balanced(st)
    ensures |st| <= |stack| && (stack != [] ==> st != [])
  {
    st, cu := stack, cuts;
    while |st| >= 2
      invariant Stacked(m.next, m.val, s, st, cu, c)
      invariant m.prev == old(m.prev) && m.val == old(m.val) && |m.next| == |m.prev|
      invariant Preserves(old(m.next), old(m.prev), m.next, m.prev, s[..c])
      invariant |st| <= |stack| && (stack != [] ==> st != [])
      decreases |st|
    {
      var n := |st|;
      StackSizes(m, s, st, cu, c);
      var at;
      if (n >= 3 && RunSize(m, st[n - 3]) <= RunSize(m, st[n - 2]) + RunSize(m, st[n - 1]))
        || (n >= 4 && RunSize(m, st[n - 4]) <= RunSize(m, st[n - 3]) + RunSize(m, st[n - 2]))
      {
        at := if RunSize(m, st[n - 3]) < RunSize(m, st[n - 1]) then n - 2 else n - 1;
      } else if RunSize(m, st[n - 2]) <= RunSize(m, st[n - 1]) {
        at := n - 1;
      } else {
        StopsBalanced(m, st);
        break;
      }
      st, cu := MergeAt(m, st, at, s, cu, c);
    }
  }

  /**
   * `merge_force_collapse`: at the end of the input, merges until at most
   * two runs are left, again merging C3 with C2 when C3 is shorter than C1.
   */
  method MergeForceCollapse(m: Heap, stack: seq<Run>, ghost s: seq<int>, ghost cuts: seq<int>, ghost c: int)
    returns (st: seq<Run>, ghost cu: seq<int>)
    requires Stacked(m.next, m.val, s, stack, cuts, c) && |m.next| == |m.prev|
    modifies m
    ensures m.prev == old(m.prev) && m.val == old(m.val)
    ensures Preserves(old(m.next), old(m.prev), m.next, m.prev, s[..c])
    ensures Stacked(m.next, m.val, s, st, cu, c)
    ensures |st| <= 2 && |st| <= |stack| && (stack != [] ==> st != [])
  {
    st, cu := stack, cuts;
    while |st| >= 3
      invariant Stacked(m.next, m.val, s, st, cu, c)
      invariant m.prev == old(m.prev) && m.val == old(m.val) && |m.next| == |m.prev|
      invariant Preserves(old(m.next), old(m.prev), m.next, m.prev, s[..c])
      invariant |st| <= |stack| && (stack != [] ==> st != [])
      decreases |st|
    {
      var n := |st|;
      StackSizes(m, s, st, cu, c);
      var at := if RunSize(m, st[n - 3]) < RunSize(m, st[n - 1]) then n - 2 else n - 1;
      st, cu := MergeAt(m, st, at, s, cu, c);
    }
  }

  /** When none of `merge_collapse`'s merge conditions holds, the stack is Balanced. */
  lemma StopsBalanced(m: Heap, stack: seq<Run>)
    requires forall k :: 0 <= k < |stack| ==> 0 <= stack[k].head < |m.next| && RunSize(m, stack[k]) == stack[k].len
    requires |stack| >= 2
    requires var n := |stack|;
      && !((n >= 3 && RunSize(m, stack[n - 3]) <= RunSize(m, stack[n - 2]) + RunSize(m, stack[n - 1]))
        || (n >= 4 && RunSize(m, stack[n - 4]) <= RunSize(m, stack[n - 3]) + RunSize(m, stack[n - 2])))
      && RunSize(m, stack[n - 2]) > RunSize(m, stack[n - 1])
    ensures Balanced(stack)
  {
  }

  /** `head->prev->next = NULL`: cutting a non-empty queue open leaves its elements as a NULL-terminated chain. */
  lemma OpenQueue(nxt: seq<int>, prv: seq<int>, h: int, s: seq<int>)
    requires QueueIn(nxt, prv, h, s) && s != []
    ensures prv[h] == s[|s| - 1] && nxt[h] == s[0] && h != prv[h]
    ensures Chain(nxt[s[|s| - 1] := Nil], s)
  {
    var n := nxt[s[|s| - 1] := Nil];
    forall i | 0 <= i < |s| ensures n[s[i]] == ChainSucc(s, i) {
      if i + 1 < |s| {
        assert s[i] != s[|s| - 1];
        assert nxt[s[i]] == Succ(h, s, i);
      }
    }
  }

  /** A step that touches only nodes of a prefix of s touches only nodes of s. */
  lemma PrefixTouch(n0: seq<int>, p0: seq<int>, n1: seq<int>, p1: seq<int>, n2: seq<int>, p2: seq<int>,
                    s: seq<int>, j: int)
    requires 0 <= j <= |s| && Preserves(n0, p0, n1, p1, s) && Preserves(n1, p1, n2, p2, s[..j])
    ensures Preserves(n0, p0, n2, p2, s)
  {
    forall y | 0 <= y < |n0| && y !in s ensures n2[y] == n0[y] && p2[y] == p0[y] {
      assert y !in s[..j];
    }
  }

  /** A step that touches only nodes of a suffix of s touches only nodes of s. */
  lemma SuffixTouch(n0: seq<int>, p0: seq<int>, n1: seq<int>, p1: seq<int>, n2: seq<int>, p2: seq<int>,
                    s: seq<int>, i: int)
    requires 0 <= i <= |s| && Preserves(n0, p0, n1, p1, s) && Preserves(n1, p1, n2, p2, s[i..])
    ensures Preserves(n0, p0, n2, p2, s)
  {
    forall y | 0 <= y < |n0| && y !in s ensures n2[y] == n0[y] && p2[y] == p0[y] {
      assert y !in s[i..];
    }
  }

  /** A step that touches only head and a permutation of s touches only head and s. */
  lemma FinalTouch(n0: seq<int>, p0: seq<int>, n1: seq<int>, p1: seq<int>, n2: seq<int>, p2: seq<int>,
                   head: int, s: seq<int>, u: seq<int>)
    requires Preserves(n0, p0, n1, p1, s) && Preserves(n1, p1, n2, p2, [head] + u) && multiset(u) == multiset(s)
    ensures Preserves(n0, p0, n2, p2, [head] + s)
  {
    forall y | 0 <= y < |n0| && y !in [head] + s ensures n2[y] == n0[y] && p2[y] == p0[y] {
      assert y !in multiset(u);
      assert y !in [head] + u;
    }
  }

  /**
   * One pass of `timsort`'s loop up to `merge_collapse`: the run `find_run`
   * found from position c0 is pushed, c moves past it, and the rest of the
   * input is still a chain starting at `rest`.
   */
  lemma Pushed(n0: seq<int>, p0: seq<int>, n1: seq<int>, n2: seq<int>, p2: seq<int>, vals: Values, s: seq<int>,
               stack: seq<Run>, cuts: seq<int>, c: int, run: Run, rest: int, c1: int)
    requires Stacked(n1, vals, s, stack, cuts, c) && 0 <= c < |s| && |n1| == |n0| && p2 == p0
    requires Preserves(n0, p0, n1, p0, s) && Preserves(n1, p0, n2, p2, s[c..])
    requires FoundRun(n2, vals, s[c..], run, rest) && c1 == c + run.len
    ensures Stacked(n2, vals, s, stack + [run], cuts + [c1], c1)
    ensures c < c1 <= |s| && |n2| == |n0|
    ensures Chain(n2, s[c1..]) && rest == Head(s[c1..])
    ensures Preserves(n0, p0, n2, p2, s)
  {
    SuffixTouch(n0, p0, n1, p0, n2, p2, s, c);
    StackPush(n1, p0, n2, p2, vals, s, stack, cuts, c, run, rest, c1);
  }

  /**
   * The rest of the pass: `merge_collapse` touched only the first c nodes,
   * so the chain of the remaining ones is intact; the loop goes on while it
   * is non-empty.
   */
  lemma Collapsed(n0: seq<int>, p0: seq<int>, n2: seq<int>, n3: seq<int>, p3: seq<int>, s: seq<int>, c: int, list: int)
    requires Distinct(s) && 0 <= c <= |s| && Chain(n2, s[c..]) && list == Head(s[c..]) && p3 == p0
    requires Preserves(n0, p0, n2, p0, s) && Preserves(n2, p0, n3, p3, s[..c]) && |n2| == |n0|
    ensures Preserves(n0, p0, n3, p3, s) && Chain(n3, s[c..]) && |n3| == |n0|
    ensures list == Nil ==> c == |s|
    ensures list != Nil ==> c < |s| && list == s[c]
  {
    PrefixTouch(n0, p0, n2, p0, n3, p3, s, c);
    TailKept(n2, p0, n3, p3, s, c);
    if c < |s| {
      assert s[c..][0] == s[c];
    }
  }

  /** Merging runs among the first c nodes leaves the chain of the nodes from c alone. */
  lemma TailKept(n0: seq<int>, p0: seq<int>, n1: seq<int>, p1: seq<int>, s: seq<int>, c: int)
    requires Distinct(s) && 0 <= c <= |s| && Chain(n0, s[c..])
    requires Preserves(n0, p0, n1, p1, s[..c]) && |n1| == |n0|
    ensures Chain(n1, s[c..])
  {
    SegApart(s, 0, c, c, |s|);
    assert s[0..c] == s[..c] && s[c..|s|] == s[c..];
    ChainKept(n0, p0, n1, p1, s[c..], s[..c]);
  }

  /**
   * `timsort`: sorts the queue with sentinel `head` stably by value. The
   * list is cut open, split into natural runs that are pushed on a stack
   * and merged by `merge_collapse`, the stack is reduced to at most two
   * runs, and the last merge (or `build_prev_link` for a single run)
   * closes the circle again. The resulting order is the merge sort order
   * of the elements, so the queue holds a stable sort of its old elements.
   */
  method Timsort(m: Heap, head: int, ghost s: seq<int>)
    requires m.IsQueue(head, s)
    modifies m
    ensures m.val == old(m.val)
    ensures m.IsQueue(head, MergeSortOrder(m.val, s))
    ensures Preserves(old(m.next), old(m.prev), m.next, m.prev, [head] + s)
  {
    var list := m.next[head];
    QueueEmpty(m.next, m.prev, head, s);
    if head == m.prev[head] {
      if s != [] {
        OpenQueue(m.next, m.prev, head, s);
      }
      return;
    }
    ghost var n0, p0 := m.next, m.prev;
    OpenQueue(m.next, m.prev, head, s);
    m.next := m.next[m.prev[head] := Nil];
    var stack: seq<Run> := [];
    ghost var cuts, c := [0], 0;
    while true
      invariant Stacked(m.next, m.val, s, stack, cuts, c) && Balanced(stack) && Distinct(s)
      invariant 0 <= c < |s| && Chain(m.next, s[c..]) && list == s[c]
      invariant m.val == old(m.val) && m.prev == p0 && |m.next| == |n0|
      invariant Preserves(n0, p0, m.next, m.prev, s)
      decreases |s| - c
    {
      ghost var n1 := m.next;
      var run, rest := FindRun(m, list, s[c..]);
      ghost var n2, c0 := m.next, c;
      c := c + run.len;
      Pushed(n0, p0, n1, n2, m.prev, m.val, s, stack, cuts, c0, run, rest, c);
      stack, cuts := MergeCollapse(m, stack + [run], s, cuts + [c], c);
      Collapsed(n0, p0, n2, m.next, m.prev, s, c, rest);
      list := rest;
      if list == Nil {
        break;
      }
    }
    assert c == |s|;
    ghost var n3 := m.next;
    stack, cuts := MergeForceCollapse(m, stack, s, cuts, c);
    PrefixTouch(n0, p0, n3, p0, m.next, m.prev, s, c);
    assert s[..c] == s;
    ghost var n4, p4 := m.next, m.prev;
    FinalMerge(m, head, stack, s, cuts);
    FinalTouch(n0, p0, n4, p4, m.next, m.prev, head, s, s);
  }

  /**
   * The end of `timsort`, once at most two runs are left: a single run is
   * linked back into the circle by `build_prev_link`; two runs, the earlier
   * first, are merged into it by `merge_final`. Either way the queue then
   * holds the merge sort order of all the nodes.
   */
  method FinalMerge(m: Heap, head: int, stack: seq<Run>, ghost s: seq<int>, ghost cuts: seq<int>)
    requires Stacked(m.next, m.val, s, stack, cuts, |s|) && 1 <= |stack| <= 2
    requires 0 <= head < |m.next| && head !in s && |m.next| == |m.prev|
    modifies m
    ensures m.val == old(m.val)
    ensures m.IsQueue(head, MergeSortOrder(m.val, s))
    ensures Preserves(old(m.next), old(m.prev), m.next, m.prev, [head] + s)
  {
    if |stack| <= 1 {
      LinkOneRun(m, head, stack, s, cuts);
    } else {
      MergeTwoRuns(m, head, stack, s, cuts);
    }
  }

  /** `build_prev_link(head, head, stk0)` on the only run left. */
  method LinkOneRun(m: Heap, head: int, stack: seq<Run>, ghost s: seq<int>, ghost cuts: seq<int>)
    requires Stacked(m.next, m.val, s, stack, cuts, |s|) && |stack| == 1
    requires 0 <= head < |m.next| && head !in s && |m.next| == |m.prev|
    modifies m
    ensures m.val == old(m.val)
    ensures m.IsQueue(head, MergeSortOrder(m.val, s))
    ensures Preserves(old(m.next), old(m.prev), m.next, m.prev, [head] + s)
  {
    ghost var n0, p0 := m.next, m.prev;
    ghost var r := MergeSortOrder(m.val, s);
    OneRun(m.next, m.val, s, stack, cuts, head);
    BuildPrevLink(m, head, head, stack[0].head, [], r);
    QueueSame(m, head, [] + r, r);
    SameNodesTouch(n0, p0, m.next, m.prev, [head] + [] + r, [head] + s);
  }

  /** The only run left holds all the nodes, in merge sort order. */
  lemma OneRun(nxt: seq<int>, vals: Values, s: seq<int>, stack: seq<Run>, cuts: seq<int>, head: int)
    requires Stacked(nxt, vals, s, stack, cuts, |s|) && |stack| == 1 && head !in s
    ensures Chain(nxt, MergeSortOrder(vals, s)) && MergeSortOrder(vals, s) != []
    ensures stack[0].head == MergeSortOrder(vals, s)[0]
    ensures head !in MergeSortOrder(vals, s) && Disjoint([], MergeSortOrder(vals, s))
    ensures multiset([head] + [] + MergeSortOrder(vals, s)) == multiset([head] + s)
  {
    assert s[cuts[0]..cuts[1]] == s;
    assert RunOf(nxt, vals, s, stack[0]);
    assert head !in multiset(s);
  }


  /** `merge_final(head, stk1, stk0)` on the two runs left, the earlier one first. */
  method MergeTwoRuns(m: Heap, head: int, stack: seq<Run>, ghost s: seq<int>, ghost cuts: seq<int>)
    requires Stacked(m.next, m.val, s, stack, cuts, |s|) && |stack| == 2
    requires 0 <= head < |m.next| && head !in s && |m.next| == |m.prev|
    modifies m
    ensures m.val == old(m.val)
    ensures m.IsQueue(head, MergeSortOrder(m.val, s))
    ensures Preserves(old(m.next), old(m.prev), m.next, m.prev, [head] + s)
  {
    ghost var n0, p0 := m.next, m.prev;
    ghost var vals := m.val;
    TwoRuns(m.next, vals, s, stack, cuts);
    ghost var k := cuts[1];
    SplitOrder(vals, s, k, head);
    ghost var a, b := MergeSortOrder(vals, s[0..k]), MergeSortOrder(vals, s[k..|s|]);
    MergeFinal(m, head, stack[0].head, stack[1].head, a, b);
    QueueSame(m, head, Merge(vals, a, b), MergeSortOrder(vals, s));
    SameNodesTouch(n0, p0, m.next, m.prev, [head] + a + b, [head] + s);
  }

  /** The two runs left hold the nodes before and from cuts[1], as disjoint chains. */
  lemma TwoRuns(nxt: seq<int>, vals: Values, s: seq<int>, stack: seq<Run>, cuts: seq<int>)
    requires Stacked(nxt, vals, s, stack, cuts, |s|) && |stack| == 2
    ensures 0 < cuts[1] < |s|
    ensures stack[0].head != Nil && stack[1].head != Nil && stack[0].head != stack[1].head
    ensures var a, b := MergeSortOrder(vals, s[0..cuts[1]]), MergeSortOrder(vals, s[cuts[1]..|s|]);
      && Chain(nxt, a) && Chain(nxt, b) && stack[0].head == Head(a) && stack[1].head == Head(b) && Disjoint(a, b)
  {
    AdjacentRuns(nxt, vals, s, stack, cuts, |s|, 1);
  }

  /** Merging the sorts of the nodes before and from k sorts all the nodes. */
  lemma SplitOrder(vals: Values, s: seq<int>, k: int, head: int)
    requires 0 <= k <= |s| && head !in s
    ensures var a, b := MergeSortOrder(vals, s[0..k]), MergeSortOrder(vals, s[k..|s|]);
      && head !in a && head !in b
      && Merge(vals, a, b) == MergeSortOrder(vals, s)
      && multiset([head] + a + b) == multiset([head] + s)
  {
    var a, b := MergeSortOrder(vals, s[0..k]), MergeSortOrder(vals, s[k..|s|]);
    AdjacentPerm(vals, s, 0, k, |s|);
    MergeAdjacent(vals, s, 0, k, |s|);
    assert s[0..|s|] == s;
    MembersApart([head], s, [head], a + b);
    assert head in [head];
  }
}
