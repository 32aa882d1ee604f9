/**
 * The queue operations of queue.c over the node store of module Links. A
 * queue is named by its sentinel node (`struct list_head *head`, `Nil` for a
 * NULL head); its elements, in order, are a ghost sequence `s` tied to the
 * links by `m.IsQueue(h, s)`. Element values are `m.val`.
 */
module Queue {
  import opened CString
  import opened NodeSeq
  import opened Sorting
  import opened Links

  /**
   * The 0-based index of the element `q_delete_mid` removes from a queue of n
   * elements: the one at 1-based position ceil(n/2), that is the middle one,
   * or the earlier of the two middles when n is even, so that as many or one
   * more elements follow it than precede it.
   */
  function Middle(n: int): (i: int)
    requires n >= 1
    ensures 0 <= i < n && i <= n - 1 - i <= i + 1
  {
    (n - 1) / 2
  }

  /**
   * `q_new`: a fresh sentinel whose links point to itself. `allocFails`
   * stands for `malloc` returning NULL, in which case NULL is returned.
   */
  method New(m: Heap, allocFails: bool) returns (h: int)
    requires |m.next| == |m.prev|
    modifies m
    ensures allocFails ==> h == Nil && unchanged(m)
    ensures !allocFails ==> h == |old(m.next)| && m.IsQueue(h, []) && m.val == old(m.val)
    ensures !allocFails ==> Preserves(old(m.next), old(m.prev), m.next, m.prev, [])
  {
    if allocFails {
      return Nil;
    }
    h := m.NewNode();
  }

  /**
   * `q_insert_head(head, str)`: a new element carrying a copy of str is linked
   * right behind head. head is NULL or the node before position j of the queue
   * h (h itself for j = 0, which is how queue.c calls it for the queue's own
   * head; `q_insert_tail` passes the last element). `allocFails` stands for
   * `malloc` or `strdup` returning NULL. x is the new element.
   */
  method InsertHead(m: Heap, head: int, str: Str, allocFails: bool, ghost h: int, ghost s: seq<int>, ghost j: int)
    returns (ok: bool, ghost x: int)
    requires head == Nil || (m.IsQueue(h, s) && 0 <= j <= |s| && head == At(h, s, j))
    modifies m
    ensures ok == (head != Nil && !allocFails)
    ensures !ok ==> unchanged(m)
    ensures ok ==> x == |old(m.next)| && m.val == old(m.val)[x := str]
    ensures ok ==> m.IsQueue(h, Insert(s, j, x))
    ensures ok && j == 0 ==> m.IsQueue(h, [x] + s)
    ensures ok ==> Preserves(old(m.next), old(m.prev), m.next, m.prev, [h] + s)
  {
    if head == Nil || allocFails {
      return false, Nil;
    }
    ghost var n0, p0 := m.next, m.prev;
    var node := m.NewNode();
    x := node;
    QueueGrow(n0, p0, h, s, x, x);
    m.val := m.val[node := str];
    ghost var n1, p1 := m.next, m.prev;
    m.Add(node, head, h, s, j);
    InsertEnds(s, x);
    AddFreshCovers(|n0|, h, s, j, x);
    PreservesTrans(n0, p0, n1, p1, m.next, m.prev, [], [h] + Insert(s, j, x), [h] + s);
    ok := true;
  }

  /**
   * `q_insert_tail(head, str)`: `q_insert_head` behind the last element, so
   * the new element becomes the last one.
   */
  method InsertTail(m: Heap, h: int, str: Str, allocFails: bool, ghost s: seq<int>) returns (ok: bool, ghost x: int)
    requires h == Nil || m.IsQueue(h, s)
    modifies m
    ensures ok == (h != Nil && !allocFails)
    ensures !ok ==> unchanged(m)
    ensures ok ==> x == |old(m.next)| && m.val == old(m.val)[x := str]
    ensures ok ==> m.IsQueue(h, s + [x])
    ensures ok ==> Preserves(old(m.next), old(m.prev), m.next, m.prev, [h] + s)
  {
    if h == Nil {
      return false, Nil;
    }
    ok, x := InsertHead(m, m.prev[h], str, allocFails, h, s, |s|);
    InsertEnds(s, x);
  }

  /**
   * `q_remove_head(head, sp, bufsize)`: unlinks the element behind head and
   * returns it, or returns NULL when head is NULL or the queue is empty. head
   * is NULL or the node before position j of the queue h (`q_remove_tail`
   * passes the node before the last element). When sp is not NULL the value
   * of the removed element is copied out, truncated to bufsize - 1 bytes and
   * NUL-terminated.
   */
  method RemoveHead(m: Heap, head: int, sp: array?<Byte>, bufsize: nat, ghost h: int, ghost s: seq<int>, ghost j: int)
    returns (r: int)
    requires head == Nil || (m.IsQueue(h, s) && 0 <= j <= |s| && head == At(h, s, j) && (j < |s| || s == []))
    requires sp != null ==> 1 <= bufsize <= sp.Length
    modifies m, sp
    ensures r == (if head == Nil || s == [] then Nil else s[j])
    ensures r == Nil ==> unchanged(m) && (sp != null ==> unchanged(sp))
    ensures r != Nil ==> m.IsQueue(h, Without(s, j)) && m.val == old(m.val)
    ensures r != Nil ==> Preserves(old(m.next), old(m.prev), m.next, m.prev, [h] + s)
    ensures r != Nil && sp != null ==>
      var t := Truncated(Key(m.val, r), bufsize);
      sp[..|t|] == t && sp[|t|] == 0 && sp[|t| + 1..] == old(sp[|t| + 1..])
  {
    if head == Nil || m.next[head] == head {
      return Nil;
    }
    r := m.next[head];
    m.Del(r, h, s, j);
    if sp != null {
      CopyOut(Key(m.val, r), sp, bufsize);
    }
  }

  /**
   * `q_remove_tail(head, sp, bufsize)`: `q_remove_head` applied to the node
   * before the last element, so the last element is removed.
   */
  method RemoveTail(m: Heap, h: int, sp: array?<Byte>, bufsize: nat, ghost s: seq<int>) returns (r: int)
    requires h == Nil || m.IsQueue(h, s)
    requires sp != null ==> 1 <= bufsize <= sp.Length
    modifies m, sp
    ensures r == (if h == Nil || s == [] then Nil else s[|s| - 1])
    ensures r == Nil ==> unchanged(m) && (sp != null ==> unchanged(sp))
    ensures r != Nil ==> m.IsQueue(h, s[..|s| - 1]) && m.val == old(m.val)
    ensures r != Nil ==> Preserves(old(m.next), old(m.prev), m.next, m.prev, [h] + s)
    ensures r != Nil && sp != null ==>
      var t := Truncated(Key(m.val, r), bufsize);
      sp[..|t|] == t && sp[|t|] == 0 && sp[|t| + 1..] == old(sp[|t| + 1..])
  {
    if h == Nil || m.next[h] == h {
      return Nil;
    }
    r := RemoveHead(m, m.prev[m.prev[h]], sp, bufsize, h, s, |s| - 1);
    WithoutEnds(s);
  }

  /** `q_size`: counts the elements by walking the `next` links. */
  method Size(m: Heap, h: int, ghost s: seq<int>) returns (n: int)
    requires h == Nil || m.IsQueue(h, s)
    ensures n == if h == Nil then 0 else |s|
  {
    if h == Nil {
      return 0;
    }
    n := 0;
    var li := m.next[h];
    while li != h
      invariant 0 <= n <= |s| && li == Behind(h, s, n)
      decreases |s| - n
    {
      n := n + 1;
      li := m.next[li];
    }
  }

  /**
   * `q_delete_mid`: walks ceil(n/2) links from the sentinel and unlinks the
   * element reached, the middle one. False, with nothing changed, for a NULL
   * head or an empty queue.
   */
  method DeleteMid(m: Heap, h: int, ghost s: seq<int>) returns (ok: bool)
    requires h == Nil || m.IsQueue(h, s)
    modifies m
    ensures ok == (h != Nil && s != [])
    ensures !ok ==> unchanged(m)
    ensures ok ==> m.IsQueue(h, Without(s, Middle(|s|))) && m.val == old(m.val)
    ensures ok ==> Preserves(old(m.next), old(m.prev), m.next, m.prev, [h] + s)
  {
    if h == Nil || m.next[h] == h {
      return false;
    }
    var n := Size(m, h, s);
    var mid := if n % 2 == 0 then n / 2 else n / 2 + 1;
    var cur, i := h, 0;
    while i < mid
      invariant 0 <= i <= mid && cur == At(h, s, i)
    {
      cur := m.next[cur];
      i := i + 1;
    }
    assert mid - 1 == Middle(|s|);
    m.Del(cur, h, s, mid - 1);
    ok := true;
  }

  /**
   * One pass of the `q_swap` loop: with the pairs before position i swapped,
   * node (the element at position i) moves behind its successor, and the
   * walk goes on from the node now after it.
   */
  method SwapPair(m: Heap, h: int, node: int, ghost s: seq<int>, ghost i: int) returns (following: int)
    requires 0 <= i && i + 1 < |s| && i % 2 == 0
    requires m.IsQueue(h, SwapPairs(s[..i]) + s[i..]) && node == s[i]
    modifies m
    ensures m.IsQueue(h, SwapPairs(s[..i + 2]) + s[i + 2..]) && m.val == old(m.val)
    ensures following == Behind(h, s, i + 2)
    ensures Preserves(old(m.next), old(m.prev), m.next, m.prev, [h] + s)
  {
    ghost var c := SwapPairs(s[..i]) + s[i..];
    SwapStep(s, i);
    SwapPrefixPerm(s, i);
    PermCovers(|m.next|, h, s, c);
    var after := m.next[node];
    m.Move(node, after, h, c, i, i + 1);
    ghost var c2 := SwapPairs(s[..i + 2]) + s[i + 2..];
    assert m.next[c2[i + 1]] == Succ(h, c2, i + 1);
    following := m.next[node];
  }

  /**
   * `q_swap`: walking the queue, each node that has a successor is moved
   * behind it (`list_move(node, node->next)`), so adjacent pairs trade places
   * and an odd last element stays where it is.
   */
  method Swap(m: Heap, h: int, ghost s: seq<int>)
    requires h == Nil || m.IsQueue(h, s)
    modifies m
    ensures h == Nil || s == [] ==> unchanged(m)
    ensures h != Nil ==> m.IsQueue(h, SwapPairs(s)) && m.val == old(m.val)
    ensures h != Nil ==> Preserves(old(m.next), old(m.prev), m.next, m.prev, [h] + s)
  {
    if h == Nil || m.next[h] == h {
      return;
    }
    ghost var n0, p0 := m.next, m.prev;
    ghost var i := 0;
    var node := m.next[h];
    while node != h
      invariant 0 <= i <= |s| && i % 2 == 0
      invariant m.IsQueue(h, SwapPairs(s[..i]) + s[i..]) && node == Behind(h, s, i)
      invariant m.val == old(m.val)
      invariant Preserves(n0, p0, m.next, m.prev, [h] + s)
      decreases |s| - i
    {
      ghost var c := SwapPairs(s[..i]) + s[i..];
      assert c[i] == s[i];
      if m.next[node] == h {
        break;
      }
      ghost var n1, p1 := m.next, m.prev;
      node := SwapPair(m, h, node, s, i);
      PreservesTrans(n0, p0, n1, p1, m.next, m.prev, [h] + s, [h] + s, [h] + s);
      i := i + 2;
    }
    SwapDone(s, i);
  }

  /**
   * One pass of the `q_reverse` loop: with the first k elements reversed,
   * node (the element at position k) moves to the front.
   */
  method ReverseOne(m: Heap, h: int, node: int, ghost s: seq<int>, ghost k: int)
    requires 0 <= k < |s|
    requires m.IsQueue(h, NodeSeq.Reverse(s[..k]) + s[k..]) && node == s[k]
    modifies m
    ensures m.IsQueue(h, NodeSeq.Reverse(s[..k + 1]) + s[k + 1..]) && m.val == old(m.val)
    ensures Preserves(old(m.next), old(m.prev), m.next, m.prev, [h] + s)
  {
    ghost var c := NodeSeq.Reverse(s[..k]) + s[k..];
    assert c[k] == s[k];
    ReverseStep(s, k);
    ReversePrefixPerm(s, k);
    PermCovers(|m.next|, h, s, c);
    m.Move(node, h, h, c, k, 0);
    InsertEnds(Without(c, k), node);
  }

  /**
   * `q_reverse`: every element in turn, from first to last, is moved to the
   * front (`list_move(node, head)`), which reverses the order.
   */
  method Reverse(m: Heap, h: int, ghost s: seq<int>)
    requires h == Nil || m.IsQueue(h, s)
    modifies m
    ensures h == Nil || s == [] ==> unchanged(m)
    ensures h != Nil ==> m.IsQueue(h, NodeSeq.Reverse(s)) && m.val == old(m.val)
    ensures h != Nil ==> Preserves(old(m.next), old(m.prev), m.next, m.prev, [h] + s)
  {
    if h == Nil || m.next[h] == h {
      return;
    }
    ghost var n0, p0 := m.next, m.prev;
    ghost var k := 0;
    var node := m.next[h];
    while node != h
      invariant 0 <= k <= |s|
      invariant m.IsQueue(h, NodeSeq.Reverse(s[..k]) + s[k..]) && node == Behind(h, s, k)
      invariant m.val == old(m.val)
      invariant Preserves(n0, p0, m.next, m.prev, [h] + s)
      decreases |s| - k
    {
      ghost var c := NodeSeq.Reverse(s[..k]) + s[k..];
      assert c[k] == s[k];
      assert k + 1 < |s| ==> c[k + 1] == s[k + 1];
      var safe := m.next[node];
      ghost var n1, p1 := m.next, m.prev;
      ReverseOne(m, h, node, s, k);
      PreservesTrans(n0, p0, n1, p1, m.next, m.prev, [h] + s, [h] + s, [h] + s);
      ReversePrefixPerm(s, k + 1);
      ghost var c1 := NodeSeq.Reverse(s[..k + 1]) + s[k + 1..];
      node := safe;
      k := k + 1;
      QueueSame(m, h, c1, NodeSeq.Reverse(s[..k]) + s[k..]);
    }
    assert s[..k] == s && s[k..] == [];
    assert NodeSeq.Reverse(s[..k]) + s[k..] == NodeSeq.Reverse(s);
  }

  /**
   * One pass of the `q_merge_two` loop (`list_move_tail(&mini->list, &tmp_head)`):
   * the first element of the queue `from` moves to the end of the queue `tmp`;
   * the third queue `other` keeps its nodes and links.
   */
  method TakeFirst(m: Heap, from: int, tmp: int, ghost sf: seq<int>, ghost t: seq<int>, ghost other: int, ghost so: seq<int>)
    requires sf != [] && m.IsQueue(from, sf) && m.IsQueue(tmp, t) && m.IsQueue(other, so)
    requires Apart(from, sf, tmp, t) && Apart(from, sf, other, so) && Apart(tmp, t, other, so)
    modifies m
    ensures m.val == old(m.val)
    ensures m.IsQueue(from, sf[1..]) && m.IsQueue(tmp, t + [sf[0]]) && m.IsQueue(other, so)
    ensures Apart(from, sf[1..], tmp, t + [sf[0]]) && Apart(from, sf[1..], other, so) && Apart(tmp, t + [sf[0]], other, so)
    ensures Preserves(old(m.next), old(m.prev), m.next, m.prev, [from, tmp] + sf + t)
  {
    ghost var n0, p0 := m.next, m.prev;
    var x := m.next[from];
    m.MoveTail(x, tmp, from, sf, 0, t);
    WithoutEnds(sf);
    PreservesQueue(n0, p0, m.next, m.prev, [from, tmp] + sf + t, other, so);
    ApartShift(from, sf, tmp, t, other, so);
  }

  /** The three splices at the end of `q_merge_two` touch only the nodes of the three queues. */
  lemma MergeRestPreserves(n0: seq<int>, p0: seq<int>, n1: seq<int>, p1: seq<int>, n2: seq<int>, p2: seq<int>,
                           n3: seq<int>, p3: seq<int>, l1: int, l2: int, tmp: int, a: seq<int>, b: seq<int>, t: seq<int>)
    requires Preserves(n0, p0, n1, p1, [l1, tmp] + a + t)
    requires Preserves(n1, p1, n2, p2, [l2, tmp] + b + (t + a))
    requires Preserves(n2, p2, n3, p3, [tmp, l1] + (t + a + b) + [])
    ensures Preserves(n0, p0, n3, p3, [l1, l2, tmp] + a + b + t)
  {
    forall y | 0 <= y < |n0| && y !in [l1, l2, tmp] + a + b + t
      ensures n3[y] == n0[y] && p3[y] == p0[y]
    {
      assert y !in [l1, tmp] + a + t;
      assert y !in [l2, tmp] + b + (t + a);
      assert y !in [tmp, l1] + (t + a + b) + [];
    }
  }

  /**
   * The end of `q_merge_two`: what is left of list1 (a) and of list2 (b), at
   * most one of them non-empty, is appended to the merged queue tmp, and the
   * whole of tmp is spliced into the emptied list1.
   */
  method MergeRest(m: Heap, l1: int, l2: int, tmp: int, ghost a: seq<int>, ghost b: seq<int>, ghost t: seq<int>)
    requires m.IsQueue(l1, a) && m.IsQueue(l2, b) && m.IsQueue(tmp, t)
    requires Apart(l1, a, tmp, t) && Apart(l1, a, l2, b) && Apart(tmp, t, l2, b)
    modifies m
    ensures m.val == old(m.val)
    ensures m.IsQueue(l1, t + a + b) && m.IsQueue(l2, [])
    ensures Preserves(old(m.next), old(m.prev), m.next, m.prev, [l1, l2, tmp] + a + b + t)
  {
    ghost var n0, p0 := m.next, m.prev;
    m.SpliceTailInit(l1, tmp, a, t);
    PreservesQueue(n0, p0, m.next, m.prev, [l1, tmp] + a + t, l2, b);
    ApartSym(l1, a, l2, b);
    ApartJoin(tmp, t, l1, a, l2, b);
    ApartSym(tmp, t + a, l2, b);
    ghost var n1, p1 := m.next, m.prev;
    m.SpliceTailInit(l2, tmp, b, t + a);
    PreservesQueue(n1, p1, m.next, m.prev, [l2, tmp] + b + (t + a), l1, []);
    ghost var n2, p2 := m.next, m.prev;
    assert Apart(tmp, t + a + b, l1, []);
    m.Splice(tmp, l1, t + a + b, []);
    PreservesQueue(n2, p2, m.next, m.prev, [tmp, l1] + (t + a + b) + [], l2, []);
    assert t + a + b + [] == t + a + b;
    MergeRestPreserves(n0, p0, n1, p1, n2, p2, m.next, m.prev, l1, l2, tmp, a, b, t);
  }

  /**
   * The state of the `q_merge_two` loop after taking i elements of list1 (s1)
   * and j of list2 (s2) into tmp, in the order t: three separate queues, and
   * t followed by the merge of what is left is the merge of the whole.
   */
  ghost predicate MergeLoop(m: Heap, l1: int, l2: int, tmp: int, vals: Values, s1: seq<int>, s2: seq<int>,
                            i: int, j: int, t: seq<int>)
    reads m
  {
    && 0 <= i <= |s1| && 0 <= j <= |s2| && m.val == vals
    && m.IsQueue(l1, s1[i..]) && m.IsQueue(l2, s2[j..]) && m.IsQueue(tmp, t)
    && Apart(l1, s1[i..], tmp, t) && Apart(l1, s1[i..], l2, s2[j..]) && Apart(tmp, t, l2, s2[j..])
    && t + Merge(vals, s2[j..], s1[i..]) == Merge(vals, s2, s1)
    && forall k :: 0 <= k < |t| ==> t[k] in s1 || t[k] in s2
  }

  /** The loop of `q_merge_two` starts with nothing taken and an empty tmp, a node new to the store. */
  lemma MergeStart(m: Heap, n0: seq<int>, p0: seq<int>, l1: int, l2: int, tmp: int, vals: Values, s1: seq<int>, s2: seq<int>)
    requires QueueIn(n0, p0, l1, s1) && QueueIn(n0, p0, l2, s2) && Apart(l1, s1, l2, s2)
    requires tmp == |n0| && m.next == n0 + [tmp] && m.prev == p0 + [tmp] && m.val == vals
    ensures MergeLoop(m, l1, l2, tmp, vals, s1, s2, 0, 0, [])
  {
    QueueGrow(n0, p0, l1, s1, tmp, tmp);
    QueueGrow(n0, p0, l2, s2, tmp, tmp);
    assert s1[0..] == s1 && s2[0..] == s2;
  }

  /** The test of the `q_merge_two` loop: a list has elements left exactly when its head does not point to itself. */
  lemma MergeGuard(m: Heap, l1: int, l2: int, tmp: int, vals: Values, s1: seq<int>, s2: seq<int>,
                   i: int, j: int, t: seq<int>)
    requires MergeLoop(m, l1, l2, tmp, vals, s1, s2, i, j, t)
    ensures 0 <= l1 < |m.next| && 0 <= l2 < |m.next|
    ensures (m.next[l1] != l1 <==> i < |s1|) && (m.next[l2] != l2 <==> j < |s2|)
  {
    QueueEmpty(m.next, m.prev, l1, s1[i..]);
    QueueEmpty(m.next, m.prev, l2, s2[j..]);
  }

  /** list1's first element is strictly smaller: it moves to tmp. */
  method TakeLeft(m: Heap, l1: int, l2: int, tmp: int, ghost vals: Values, ghost s1: seq<int>, ghost s2: seq<int>,
                  ghost i: int, ghost j: int, ghost t: seq<int>)
    requires MergeLoop(m, l1, l2, tmp, vals, s1, s2, i, j, t) && i < |s1| && j < |s2|
    requires StrCmp(Key(vals, s1[i]), Key(vals, s2[j])) < 0
    modifies m
    ensures MergeLoop(m, l1, l2, tmp, vals, s1, s2, i + 1, j, t + [s1[i]])
    ensures Preserves(old(m.next), old(m.prev), m.next, m.prev, [l1, l2, tmp] + s1 + s2 + t)
  {
    ghost var n0, p0 := m.next, m.prev;
    var e1 := s1[i..][0];
    MergeTakeSecond(vals, s2[j..], s1[i..]);
    assert s1[i..][1..] == s1[i + 1..];
    ApartSym(tmp, t, l2, s2[j..]);
    TakeFirst(m, l1, tmp, s1[i..], t, l2, s2[j..]);
    ApartSym(l2, s2[j..], tmp, t + [e1]);
    AppendAssoc(t, [e1], Merge(vals, s2[j..], s1[i + 1..]));
    StepPreserves(n0, p0, m.next, m.prev, l1, l2, tmp, s1, s2, t, i, true, l1, s1[i..]);
  }

  /** list2's first element is not larger: it moves to tmp. */
  method TakeRight(m: Heap, l1: int, l2: int, tmp: int, ghost vals: Values, ghost s1: seq<int>, ghost s2: seq<int>,
                   ghost i: int, ghost j: int, ghost t: seq<int>)
    requires MergeLoop(m, l1, l2, tmp, vals, s1, s2, i, j, t) && i < |s1| && j < |s2|
    requires StrCmp(Key(vals, s1[i]), Key(vals, s2[j])) >= 0
    modifies m
    ensures MergeLoop(m, l1, l2, tmp, vals, s1, s2, i, j + 1, t + [s2[j]])
    ensures Preserves(old(m.next), old(m.prev), m.next, m.prev, [l1, l2, tmp] + s1 + s2 + t)
  {
    ghost var n0, p0 := m.next, m.prev;
    var e2 := s2[j..][0];
    assert Merge(vals, s2[j..], s1[i..]) == [e2] + Merge(vals, s2[j + 1..], s1[i..]) by {
      StrCmpFlip(Key(vals, s1[i]), Key(vals, e2));
      assert s2[j..][1..] == s2[j + 1..];
      assert s1[i..][0] == s1[i];
    }
    ApartSym(l1, s1[i..], l2, s2[j..]);
    TakeFirst(m, l2, tmp, s2[j..], t, l1, s1[i..]);
    ApartSym(l2, s2[j + 1..], l1, s1[i..]);
    ApartSym(tmp, t + [e2], l1, s1[i..]);
    ApartSym(l2, s2[j + 1..], tmp, t + [e2]);
    AppendAssoc(t, [e2], Merge(vals, s2[j + 1..], s1[i..]));
    StepPreserves(n0, p0, m.next, m.prev, l1, l2, tmp, s1, s2, t, j, false, l2, s2[j..]);
  }

  /**
   * One pass of the `q_merge_two` loop: the first element of list1 moves to
   * tmp when its string is strictly smaller than that of list2's first
   * element, otherwise list2's first element does.
   */
  method MergeStep(m: Heap, l1: int, l2: int, tmp: int, ghost vals: Values, ghost s1: seq<int>, ghost s2: seq<int>,
                   ghost i: int, ghost j: int, ghost t: seq<int>)
    returns (ghost i': int, ghost j': int, ghost t': seq<int>)
    requires MergeLoop(m, l1, l2, tmp, vals, s1, s2, i, j, t) && i < |s1| && j < |s2|
    modifies m
    ensures MergeLoop(m, l1, l2, tmp, vals, s1, s2, i', j', t')
    ensures i' + j' == i + j + 1 && i <= i' && j <= j'
    ensures Preserves(old(m.next), old(m.prev), m.next, m.prev, [l1, l2, tmp] + s1 + s2 + t)
  {
    var e1, e2 := m.next[l1], m.next[l2];
    assert s1[i..][0] == e1 && s2[j..][0] == e2;
    assert e1 == s1[i] && e2 == s2[j];
    if StrCmp(Key(m.val, e1), Key(m.val, e2)) < 0 {
      i', j', t' := i + 1, j, t + [s1[i]];
      TakeLeft(m, l1, l2, tmp, vals, s1, s2, i, j, t);
    } else {
      i', j', t' := i, j + 1, t + [s2[j]];
      TakeRight(m, l1, l2, tmp, vals, s1, s2, i, j, t);
    }
  }

  /** What one pass touches: the heads, the suffix sf of s1 or s2 it takes from, and tmp's order t. */
  lemma StepPreserves(n0: seq<int>, p0: seq<int>, n1: seq<int>, p1: seq<int>,
                      l1: int, l2: int, tmp: int, s1: seq<int>, s2: seq<int>, t: seq<int>,
                      k: int, first: bool, from: int, sf: seq<int>)
    requires Preserves(n0, p0, n1, p1, [from, tmp] + sf + t)
    requires first ==> from == l1 && 0 <= k <= |s1| && sf == s1[k..]
    requires !first ==> from == l2 && 0 <= k <= |s2| && sf == s2[k..]
    ensures Preserves(n0, p0, n1, p1, [l1, l2, tmp] + s1 + s2 + t)
  {
    forall y | 0 <= y < |n0| && y !in [l1, l2, tmp] + s1 + s2 + t
      ensures n1[y] == n0[y] && p1[y] == p0[y]
    {
      forall x | 0 <= x < |sf| ensures sf[x] != y {
        if first {
          assert sf[x] == s1[k + x];
        } else {
          assert sf[x] == s2[k + x];
        }
      }
      assert y !in [from, tmp] + sf + t;
    }
  }

  /** Steps of the `q_merge_two` loop leave alone every node the two lists did not hold. */
  lemma MergeLoopPreserves(n0: seq<int>, p0: seq<int>, n1: seq<int>, p1: seq<int>, n2: seq<int>, p2: seq<int>,
                           l1: int, l2: int, s1: seq<int>, s2: seq<int>, tmp: int, t: seq<int>)
    requires Preserves(n0, p0, n1, p1, [l1, l2] + s1 + s2)
    requires Preserves(n1, p1, n2, p2, [l1, l2, tmp] + s1 + s2 + t)
    requires tmp >= |n0|
    requires forall k :: 0 <= k < |t| ==> t[k] in s1 || t[k] in s2
    ensures Preserves(n0, p0, n2, p2, [l1, l2] + s1 + s2)
  {
    forall y | 0 <= y < |n0| && y !in [l1, l2] + s1 + s2
      ensures n2[y] == n0[y] && p2[y] == p0[y]
    {
      assert y !in [l1, l2, tmp] + s1 + s2 + t;
    }
  }

  /** The splices that end `q_merge_two` touch the heads, what is left of the two lists and tmp's order. */
  lemma MergeEndPreserves(n0: seq<int>, p0: seq<int>, n1: seq<int>, p1: seq<int>,
                          l1: int, l2: int, s1: seq<int>, s2: seq<int>, tmp: int, i: int, j: int, t: seq<int>)
    requires 0 <= i <= |s1| && 0 <= j <= |s2|
    requires Preserves(n0, p0, n1, p1, [l1, l2, tmp] + s1[i..] + s2[j..] + t)
    ensures Preserves(n0, p0, n1, p1, [l1, l2, tmp] + s1 + s2 + t)
  {
    forall y | 0 <= y < |n0| && y !in [l1, l2, tmp] + s1 + s2 + t
      ensures n1[y] == n0[y] && p1[y] == p0[y]
    {
      forall k | 0 <= k < |s1| - i ensures s1[i..][k] != y {
        assert s1[i..][k] == s1[i + k];
      }
      forall k | 0 <= k < |s2| - j ensures s2[j..][k] != y {
        assert s2[j..][k] == s2[j + k];
      }
      assert y !in [l1, l2, tmp] + s1[i..] + s2[j..] + t;
    }
  }

  /**
   * The end of `q_merge_two`, once list1 or list2 has run out: the splices
   * leave the whole merge in list1 and an empty list2, and over the whole
   * call only the nodes of the two lists have been relinked.
   */
  method MergeFinish(m: Heap, l1: int, l2: int, tmp: int, ghost vals: Values, ghost s1: seq<int>, ghost s2: seq<int>,
                     ghost i: int, ghost j: int, ghost t: seq<int>, ghost n0: seq<int>, ghost p0: seq<int>)
    requires MergeLoop(m, l1, l2, tmp, vals, s1, s2, i, j, t) && (m.next[l1] == l1 || m.next[l2] == l2)
    requires tmp >= |n0| && Preserves(n0, p0, m.next, m.prev, [l1, l2] + s1 + s2)
    modifies m
    ensures m.IsQueue(l1, Merge(m.val, s2, s1)) && m.IsQueue(l2, []) && m.val == vals
    ensures Preserves(n0, p0, m.next, m.prev, [l1, l2] + s1 + s2)
  {
    QueueEmpty(m.next, m.prev, l1, s1[i..]);
    QueueEmpty(m.next, m.prev, l2, s2[j..]);
    MergeEmpty(vals, s2[j..], s1[i..]);
    assert t + s1[i..] + s2[j..] == Merge(vals, s2, s1);
    ghost var n1, p1 := m.next, m.prev;
    MergeRest(m, l1, l2, tmp, s1[i..], s2[j..], t);
    MergeEndPreserves(n1, p1, m.next, m.prev, l1, l2, s1, s2, tmp, i, j, t);
    MergeLoopPreserves(n0, p0, n1, p1, m.next, m.prev, l1, l2, s1, s2, tmp, t);
  }

  /**
   * `q_merge_two(list1, list2)`: repeatedly moves the smaller of the two first
   * elements to a local list (list1's only when strictly smaller by strcmp),
   * then appends the leftovers and splices the result into list1, leaving
   * list2 empty. Nothing happens when either head is NULL. The local head
   * `tmp_head` is modelled as a fresh node.
   */
  method MergeTwo(m: Heap, l1: int, l2: int, ghost s1: seq<int>, ghost s2: seq<int>)
    requires l1 != Nil && l2 != Nil ==> m.IsQueue(l1, s1) && m.IsQueue(l2, s2) && Apart(l1, s1, l2, s2)
    modifies m
    ensures l1 == Nil || l2 == Nil ==> unchanged(m)
    ensures l1 != Nil && l2 != Nil ==> m.IsQueue(l1, Merge(m.val, s2, s1)) && m.IsQueue(l2, []) && m.val == old(m.val)
    ensures l1 != Nil && l2 != Nil ==> Preserves(old(m.next), old(m.prev), m.next, m.prev, [l1, l2] + s1 + s2)
  {
    if l1 == Nil || l2 == Nil {
      return;
    }
    MergeQueues(m, l1, l2, s1, s2);
  }

  /** The body of `q_merge_two` once both heads are known to be real queues. */
  method MergeQueues(m: Heap, l1: int, l2: int, ghost s1: seq<int>, ghost s2: seq<int>)
    requires m.IsQueue(l1, s1) && m.IsQueue(l2, s2) && Apart(l1, s1, l2, s2)
    modifies m
    ensures m.IsQueue(l1, Merge(m.val, s2, s1)) && m.IsQueue(l2, []) && m.val == old(m.val)
    ensures Preserves(old(m.next), old(m.prev), m.next, m.prev, [l1, l2] + s1 + s2)
  {
    ghost var n0, p0 := m.next, m.prev;
    ghost var vals := m.val;
    var tmp := m.NewNode();
    MergeStart(m, n0, p0, l1, l2, tmp, vals, s1, s2);
    ghost var i, j, t := 0, 0, [];
    MergeGuard(m, l1, l2, tmp, vals, s1, s2, i, j, t);
    while m.next[l1] != l1 && m.next[l2] != l2
      invariant MergeLoop(m, l1, l2, tmp, vals, s1, s2, i, j, t)
      invariant 0 <= l1 < |m.next| && 0 <= l2 < |m.next|
      invariant (m.next[l1] != l1 <==> i < |s1|) && (m.next[l2] != l2 <==> j < |s2|)
      invariant tmp >= |n0| && Preserves(n0, p0, m.next, m.prev, [l1, l2] + s1 + s2)
      decreases |s1| - i + |s2| - j
    {
      ghost var n1, p1 := m.next, m.prev;
      i, j, t := MergeStep(m, l1, l2, tmp, vals, s1, s2, i, j, t);
      MergeLoopPreserves(n0, p0, n1, p1, m.next, m.prev, l1, l2, s1, s2, tmp, t);
      MergeGuard(m, l1, l2, tmp, vals, s1, s2, i, j, t);
    }
    MergeFinish(m, l1, l2, tmp, vals, s1, s2, i, j, t, n0, p0);
  }

  /** What merge_sort touches, step by step, lies within the queue it sorts. */
  lemma SortPreserves(n0: seq<int>, p0: seq<int>, n1: seq<int>, p1: seq<int>, n2: seq<int>, p2: seq<int>,
                      n3: seq<int>, p3: seq<int>, n4: seq<int>, p4: seq<int>,
                      h: int, left: int, s: seq<int>, k: int, sl: seq<int>, sr: seq<int>)
    requires 0 <= k <= |s| && left >= |n0|
    requires multiset(sl) == multiset(s[..k]) && multiset(sr) == multiset(s[k..])
    requires Preserves(n0, p0, n1, p1, [left, h] + s)
    requires Preserves(n1, p1, n2, p2, [left] + s[..k])
    requires Preserves(n2, p2, n3, p3, [h] + s[k..])
    requires Preserves(n3, p3, n4, p4, [h, left] + sr + sl)
    ensures Preserves(n0, p0, n4, p4, [h] + s)
  {
    forall y | 0 <= y < |n0| && y !in [h] + s
      ensures n4[y] == n0[y] && p4[y] == p0[y]
    {
      assert s == s[..k] + s[k..];
      assert y !in multiset(s[..k]) && y !in multiset(s[k..]);
      assert y !in [left, h] + s && y !in [left] + s[..k] && y !in [h] + s[k..] && y !in [h, left] + sr + sl;
    }
  }

  /**
   * `merge_sort`: queues of fewer than two elements are left alone;
   * otherwise a slow pointer advances one node for every two of a fast one,
   * so that it stops on the last of the first floor(n/2) elements; those are
   * cut off onto a local head, both halves are sorted recursively and
   * `q_merge_two(head, &left)` merges them back, the first half winning ties.
   * The local head `left` is modelled as a fresh node.
   */
  method MergeSort(m: Heap, h: int, ghost s: seq<int>)
    requires h == Nil || m.IsQueue(h, s)
    modifies m
    ensures h == Nil || |s| <= 1 ==> unchanged(m)
    ensures h != Nil ==> m.IsQueue(h, MergeSortOrder(m.val, s)) && m.val == old(m.val)
    ensures h != Nil ==> Preserves(old(m.next), old(m.prev), m.next, m.prev, [h] + s)
    decreases |s|
  {
    if h == Nil {
      return;
    }
    QueueEmpty(m.next, m.prev, h, s);
    if m.next[h] == h || m.next[h] == m.prev[h] {
      assert |s| <= 1;
      return;
    }
    ghost var k := 0;
    var slow, fast := h, m.next[h];
    while fast != h && m.next[fast] != h
      invariant 0 <= 2 * k <= |s| && slow == At(h, s, k) && fast == Behind(h, s, 2 * k)
      decreases |s| - 2 * k
    {
      slow := m.next[slow];
      fast := m.next[m.next[fast]];
      k := k + 1;
    }
    assert k == |s| / 2;
    ghost var n0, p0 := m.next, m.prev;
    var left := m.NewNode();
    QueueGrow(n0, p0, h, s, left, left);
    ghost var n1, p1 := m.next, m.prev;
    m.CutPosition(left, h, slow, s, k);
    ghost var n2, p2 := m.next, m.prev;
    MergeSort(m, left, s[..k]);
    PreservesApart(n2, p2, m.next, m.prev, [left] + s[..k], left, s[..k], h, s[k..]);
    ghost var n3, p3 := m.next, m.prev;
    MergeSort(m, h, s[k..]);
    ghost var sl, sr := MergeSortOrder(m.val, s[..k]), MergeSortOrder(m.val, s[k..]);
    ApartPerm(left, s[..k], h, s[k..], sl, s[k..]);
    PreservesApart(n3, p3, m.next, m.prev, [h] + s[k..], h, s[k..], left, sl);
    ApartSym(left, s[..k], h, s[k..]);
    ApartPerm(h, s[k..], left, s[..k], sr, sl);
    ghost var n4, p4 := m.next, m.prev;
    MergeTwo(m, h, left, sr, sl);
    PreservesTrans(n0, p0, n1, p1, n2, p2, [], [left, h] + s, [left, h] + s);
    SortPreserves(n0, p0, n2, p2, n3, p3, n4, p4, m.next, m.prev, h, left, s, k, sl, sr);
  }

  /** `q_sort(head, descend)`: merge_sort, then q_reverse when descending order is asked for. */
  method Sort(m: Heap, h: int, descend: bool, ghost s: seq<int>)
    requires h == Nil || m.IsQueue(h, s)
    modifies m
    ensures h == Nil ==> unchanged(m)
    ensures h != Nil && !descend ==> m.IsQueue(h, MergeSortOrder(m.val, s))
    ensures h != Nil && descend ==> m.IsQueue(h, NodeSeq.Reverse(MergeSortOrder(m.val, s)))
    ensures h != Nil ==> m.val == old(m.val) && Preserves(old(m.next), old(m.prev), m.next, m.prev, [h] + s)
  {
    ghost var n0, p0 := m.next, m.prev;
    MergeSort(m, h, s);
    if descend {
      ghost var n1, p1 := m.next, m.prev;
      ghost var r := MergeSortOrder(m.val, s);
      Reverse(m, h, r);
      if h != Nil {
        PermCovers(|n0|, h, s, r);
        PreservesTrans(n0, p0, n1, p1, m.next, m.prev, [h] + s, [h] + r, [h] + s);
      }
    }
  }

  /**
   * The state of the right-to-left sweep of `q_ascend`/`q_descend`: tmp is the
   * first survivor of the suffix from position i, may stay in front of every
   * node of that suffix, and the queue holds s[..i] followed by the survivors.
   */
  ghost predicate SweepState(m: Heap, h: int, vals: Values, s: seq<int>, ascend: bool, i: int, tmp: int)
    reads m
  {
    && m.val == vals && 0 <= i < |s|
    && m.IsQueue(h, s[..i] + Survivors(vals, s[i..], ascend))
    && Survivors(vals, s[i..], ascend) != [] && Survivors(vals, s[i..], ascend)[0] == tmp
    && forall j :: i <= j < |s| ==> Keeps(vals, tmp, s[j], ascend)
  }

  /** Deleting from the sweep's queue touches only nodes of the original queue. */
  lemma SweepPreserves(n0: seq<int>, p0: seq<int>, n1: seq<int>, p1: seq<int>,
                       h: int, vals: Values, s: seq<int>, ascend: bool, i: int)
    requires 0 <= i <= |s|
    requires Preserves(n0, p0, n1, p1, [h] + (s[..i] + Survivors(vals, s[i..], ascend)))
    ensures Preserves(n0, p0, n1, p1, [h] + s)
  {
    forall y | 0 <= y < |n0| && y !in [h] + s
      ensures n1[y] == n0[y] && p1[y] == p0[y]
    {
      var r := Survivors(vals, s[i..], ascend);
      forall k | 0 <= k < |r| ensures r[k] != y {
        assert r[k] in s[i..];
      }
      assert y !in s[..i];
      assert y !in [h] + (s[..i] + r);
    }
  }

  /**
   * One pass of the sweep: prev, the node before tmp, is deleted when its
   * string compares strictly above tmp's (`q_ascend`) or strictly below it
   * (`q_descend`); otherwise tmp moves back to it.
   */
  method SweepStep(m: Heap, h: int, tmp: int, prev: int, ascend: bool, ghost vals: Values, ghost s: seq<int>, ghost i: int)
    returns (tmp': int)
    requires SweepState(m, h, vals, s, ascend, i, tmp) && 1 <= i && prev == s[i - 1]
    modifies m
    ensures SweepState(m, h, vals, s, ascend, i - 1, tmp')
    ensures Preserves(old(m.next), old(m.prev), m.next, m.prev, [h] + s)
  {
    ghost var c := s[..i] + Survivors(vals, s[i..], ascend);
    assert c[i - 1] == prev;
    StrCmpFlip(Key(vals, tmp), Key(vals, prev));
    SurvivorsStep(vals, s, i, tmp, ascend);
    assert s[i - 1..][1..] == s[i..];
    var cmp := StrCmp(Key(m.val, tmp), Key(m.val, prev));
    if (ascend && cmp < 0) || (!ascend && cmp > 0) {
      m.Del(prev, h, c, i - 1);
      SweepDrop(vals, s, i, ascend);
      SweepPreserves(old(m.next), old(m.prev), m.next, m.prev, h, vals, s, ascend, i);
      tmp' := tmp;
    } else {
      SweepKeep(vals, s, i, ascend);
      tmp' := prev;
    }
  }

  /** The sweep's loop state, also when the queue is empty (then tmp is the head). */
  ghost predicate SweepLoop(m: Heap, h: int, vals: Values, s: seq<int>, ascend: bool, i: int, tmp: int)
    reads m
  {
    if s == [] then m.val == vals && tmp == h && m.IsQueue(h, [])
    else SweepState(m, h, vals, s, ascend, i, tmp)
  }

  /** The sweep starts from the last node, which always survives. */
  lemma SweepStart(m: Heap, h: int, vals: Values, s: seq<int>, ascend: bool)
    requires m.IsQueue(h, s) && m.val == vals
    ensures SweepLoop(m, h, vals, s, ascend, |s| - 1, m.prev[h])
  {
    if s != [] {
      var i := |s| - 1;
      SurvivorsOfLast(vals, s, ascend);
      assert s[..i] + [s[i]] == s;
    }
  }

  /**
   * The sweep's guard: the node before tmp is the head exactly when every
   * node has been visited, and otherwise it is the next node to visit.
   */
  lemma SweepGuard(m: Heap, h: int, vals: Values, s: seq<int>, ascend: bool, i: int, tmp: int)
    requires SweepLoop(m, h, vals, s, ascend, i, tmp)
    ensures 0 <= tmp < |m.prev|
    ensures m.prev[tmp] != h ==> s != [] && 1 <= i && m.prev[tmp] == s[i - 1]
    ensures m.prev[tmp] == h ==> m.IsQueue(h, Survivors(vals, s, ascend))
  {
    if s != [] {
      var c := s[..i] + Survivors(vals, s[i..], ascend);
      assert c[i] == tmp;
      assert m.prev[c[i]] == Pred(h, c, i);
      if i == 0 {
        assert s[..0] + Survivors(vals, s[0..], ascend) == Survivors(vals, s, ascend);
      } else {
        assert c[i - 1] == s[i - 1];
      }
    }
  }

  /**
   * The loop shared by `q_ascend` (ascend) and `q_descend` (not ascend):
   * from the last element backwards, the node before tmp is deleted while it
   * may not stay in front of tmp; the number of elements left is returned.
   * The head must not be NULL (it is dereferenced unchecked).
   */
  method Sweep(m: Heap, h: int, ascend: bool, ghost s: seq<int>) returns (n: int)
    requires m.IsQueue(h, s)
    modifies m
    ensures m.IsQueue(h, Survivors(m.val, s, ascend)) && m.val == old(m.val)
    ensures n == |Survivors(m.val, s, ascend)|
    ensures Preserves(old(m.next), old(m.prev), m.next, m.prev, [h] + s)
  {
    ghost var n0, p0 := m.next, m.prev;
    ghost var vals := m.val;
    SweepStart(m, h, vals, s, ascend);
    var tmp := m.prev[h];
    ghost var i := |s| - 1;
    SweepGuard(m, h, vals, s, ascend, i, tmp);
    while m.prev[tmp] != h
      invariant SweepLoop(m, h, vals, s, ascend, i, tmp)
      invariant m.val == vals && Preserves(n0, p0, m.next, m.prev, [h] + s)
      decreases i
    {
      SweepGuard(m, h, vals, s, ascend, i, tmp);
      ghost var n1, p1 := m.next, m.prev;
      tmp := SweepStep(m, h, tmp, m.prev[tmp], ascend, vals, s, i);
      PreservesTrans(n0, p0, n1, p1, m.next, m.prev, [h] + s, [h] + s, [h] + s);
      i := i - 1;
    }
    SweepGuard(m, h, vals, s, ascend, i, tmp);
    n := Size(m, h, Survivors(vals, s, ascend));
  }

  /** `q_ascend`: keeps the elements no later element is strictly smaller than. */
  method Ascend(m: Heap, h: int, ghost s: seq<int>) returns (n: int)
    requires m.IsQueue(h, s)
    modifies m
    ensures m.IsQueue(h, Survivors(m.val, s, true)) && m.val == old(m.val)
    ensures n == |Survivors(m.val, s, true)|
    ensures Preserves(old(m.next), old(m.prev), m.next, m.prev, [h] + s)
  {
    n := Sweep(m, h, true, s);
  }

  /** `q_descend`: keeps the elements no later element is strictly greater than. */
  method Descend(m: Heap, h: int, ghost s: seq<int>) returns (n: int)
    requires m.IsQueue(h, s)
    modifies m
    ensures m.IsQueue(h, Survivors(m.val, s, false)) && m.val == old(m.val)
    ensures n == |Survivors(m.val, s, false)|
    ensures Preserves(old(m.next), old(m.prev), m.next, m.prev, [h] + s)
  {
    n := Sweep(m, h, false, s);
  }
}
