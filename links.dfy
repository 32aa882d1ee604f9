/**
 * The node store and the circular doubly-linked list primitives that queue.c
 * and timsort.c are written against (`struct list_head` and the `list_*`
 * operations). A node is an integer id; `next[n]` and `prev[n]` are its two
 * links, and `Nil` stands for the NULL pointer. The forward order of a queue
 * is a ghost sequence of node ids that the predicates below tie to the links.
 */
module Links {
  import opened CString
  import opened NodeSeq

  /** The NULL pointer. */
  const Nil: int := -1

  /** The node after h in the circle h, s[0], ..., s[|s|-1], h. */
  function First(h: int, s: seq<int>): int {
    if s == [] then h else s[0]
  }

  /** The node before h in that circle. */
  function Last(h: int, s: seq<int>): int {
    if s == [] then h else s[|s| - 1]
  }

  /** The successor of s[i] in the circle closed by h. */
  function Succ(h: int, s: seq<int>, i: int): int
    requires 0 <= i < |s|
  {
    if i + 1 < |s| then s[i + 1] else h
  }

  /** The predecessor of s[i] in the circle closed by h. */
  function Pred(h: int, s: seq<int>, i: int): int
    requires 0 <= i < |s|
  {
    if i > 0 then s[i - 1] else h
  }

  /** Every id of s names a node of a store of n nodes. */
  ghost predicate InStore(n: int, s: seq<int>) {
    forall i :: 0 <= i < |s| ==> 0 <= s[i] < n
  }

  /** h and the distinct nodes of s are nodes of a store of n nodes. */
  ghost predicate Shape(n: int, h: int, s: seq<int>) {
    0 <= h < n && InStore(n, s) && Distinct(s) && h !in s
  }

  /** Following `next` from h visits s and comes back to h. */
  ghost predicate NextRing(nxt: seq<int>, h: int, s: seq<int>)
    requires Shape(|nxt|, h, s)
  {
    nxt[h] == First(h, s) && forall i {:trigger nxt[s[i]]} :: 0 <= i < |s| ==> nxt[s[i]] == Succ(h, s, i)
  }

  /** Following `prev` from h visits s backwards and comes back to h. */
  ghost predicate PrevRing(prv: seq<int>, h: int, s: seq<int>)
    requires Shape(|prv|, h, s)
  {
    prv[h] == Last(h, s) && forall i {:trigger prv[s[i]]} :: 0 <= i < |s| ==> prv[s[i]] == Pred(h, s, i)
  }

  /**
   * The links nxt/prv hold a circular doubly-linked list with sentinel h whose
   * elements, read forward from h, are s: h's `next` is the first element and
   * its `prev` the last, and along the circle `next` and `prev` are inverse.
   */
  ghost predicate QueueIn(nxt: seq<int>, prv: seq<int>, h: int, s: seq<int>) {
    |nxt| == |prv| && Shape(|nxt|, h, s) && NextRing(nxt, h, s) && PrevRing(prv, h, s)
  }

  /** The successor of c[i] in a NULL-terminated chain. */
  function ChainSucc(c: seq<int>, i: int): int
    requires 0 <= i < |c|
  {
    if i + 1 < |c| then c[i + 1] else Nil
  }

  /** The first node of a NULL-terminated chain, Nil for the empty chain. */
  function Head(c: seq<int>): int {
    if c == [] then Nil else c[0]
  }

  /**
   * The `next` links hold a NULL-terminated singly-linked chain visiting c in
   * order (the form timsort works on; `prev` is not part of it).
   */
  ghost predicate Chain(nxt: seq<int>, c: seq<int>) {
    && InStore(|nxt|, c)
    && Distinct(c)
    && (forall i {:trigger nxt[c[i]]} :: 0 <= i < |c| ==> nxt[c[i]] == ChainSucc(c, i))
  }

  /** The two link arrays agree on every node of c. */
  ghost predicate AgreeOn(n1: seq<int>, p1: seq<int>, n2: seq<int>, p2: seq<int>, c: seq<int>)
    requires InStore(|n1|, c) && |n1| == |p1| == |n2| == |p2|
  {
    forall i :: 0 <= i < |c| ==> n2[c[i]] == n1[c[i]] && p2[c[i]] == p1[c[i]]
  }

  /** `list_empty(h)`: h's `next` leads back to h exactly when the queue has no element. */
  lemma QueueEmpty(nxt: seq<int>, prv: seq<int>, h: int, s: seq<int>)
    requires QueueIn(nxt, prv, h, s)
    ensures nxt[h] == h <==> s == []
  {
  }

  /** A queue is a property of the links of its own nodes only. */
  lemma QueueFrame(n1: seq<int>, p1: seq<int>, n2: seq<int>, p2: seq<int>, h: int, s: seq<int>)
    requires QueueIn(n1, p1, h, s)
    requires |n2| == |p2| == |n1| && AgreeOn(n1, p1, n2, p2, s)
    requires n2[h] == n1[h] && p2[h] == p1[h]
    ensures QueueIn(n2, p2, h, s)
  {
  }

  /** A chain is a property of the `next` links of its own nodes only. */
  lemma ChainFrame(n1: seq<int>, n2: seq<int>, c: seq<int>)
    requires Chain(n1, c) && |n2| == |n1|
    requires forall i :: 0 <= i < |c| ==> n2[c[i]] == n1[c[i]]
    ensures Chain(n2, c)
  {
  }

  /** What follows the first node of a chain is a chain. */
  lemma ChainRest(nxt: seq<int>, c: seq<int>, i: int)
    requires 0 <= i < |c| && Chain(nxt, c[i..])
    ensures Chain(nxt, c[i + 1..]) && nxt[c[i]] == Head(c[i + 1..])
  {
    var u, v := c[i..], c[i + 1..];
    assert nxt[u[0]] == ChainSucc(u, 0);
    forall k | 0 <= k < |v| ensures nxt[v[k]] == ChainSucc(v, k) {
      assert v[k] == u[k + 1];
      assert nxt[u[k + 1]] == ChainSucc(u, k + 1);
    }
  }

  /** Relinking a node outside a chain leaves the chain as it is. */
  lemma ChainUpdate(nxt: seq<int>, c: seq<int>, x: int, v: int)
    requires Chain(nxt, c) && 0 <= x < |nxt| && x !in c
    ensures Chain(nxt[x := v], c)
  {
    forall k | 0 <= k < |c| ensures nxt[x := v][c[k]] == nxt[c[k]] {
      assert c[k] != x;
    }
  }

  /** Consecutive nodes of t are linked by `next`; the last node's `next` is left open. */
  ghost predicate Linked(nxt: seq<int>, t: seq<int>) {
    InStore(|nxt|, t) && forall k {:trigger nxt[t[k]]} :: 0 <= k < |t| - 1 ==> nxt[t[k]] == t[k + 1]
  }

  /** A chain's nodes are linked. */
  lemma ChainLinked(nxt: seq<int>, c: seq<int>)
    requires Chain(nxt, c)
    ensures Linked(nxt, c)
  {
    forall k | 0 <= k < |c| - 1 ensures nxt[c[k]] == c[k + 1] {
      assert nxt[c[k]] == ChainSucc(c, k);
    }
  }

  /** Pointing the last node of a linked t at x links t followed by x. */
  lemma LinkedSnoc(n0: seq<int>, n1: seq<int>, t: seq<int>, x: int)
    requires Linked(n0, t) && Distinct(t) && 0 <= x < |n0|
    requires t == [] ==> n1 == n0
    requires t != [] ==> n1 == n0[t[|t| - 1] := x]
    ensures Linked(n1, t + [x])
  {
    var u := t + [x];
    forall k | 0 <= k < |u| - 1 ensures n1[u[k]] == u[k + 1] {
      assert u[k] == t[k];
      if k < |t| - 1 {
        assert u[k + 1] == t[k + 1];
      }
    }
  }

  /** Relinking the last node of a linked t, or a node outside it, keeps t linked. */
  lemma LinkedUpdate(nxt: seq<int>, t: seq<int>, x: int, v: int)
    requires Linked(nxt, t) && 0 <= x < |nxt| && forall k :: 0 <= k < |t| - 1 ==> t[k] != x
    ensures Linked(nxt[x := v], t)
  {
  }

  /** A linked prefix whose last node leads to a chain, with no node repeated, makes one chain. */
  lemma ChainJoin(nxt: seq<int>, t: seq<int>, c: seq<int>)
    requires Linked(nxt, t) && Chain(nxt, c) && Distinct(t + c)
    requires t != [] && nxt[t[|t| - 1]] == Head(c)
    ensures Chain(nxt, t + c)
  {
    var u := t + c;
    forall i | 0 <= i < |u| ensures nxt[u[i]] == ChainSucc(u, i) {
      if i < |t| - 1 {
        assert u[i] == t[i] && u[i + 1] == t[i + 1];
      } else if i == |t| - 1 {
        assert u[i] == t[i];
        if c != [] {
          assert u[i + 1] == c[0];
        }
      } else {
        assert u[i] == c[i - |t|];
        assert nxt[c[i - |t|]] == ChainSucc(c, i - |t|);
      }
    }
  }

  /**
   * h followed by s is linked both ways, as the front of a queue under
   * construction: h's `prev` and the last node's `next` are still open.
   */
  ghost predicate FrontIn(nxt: seq<int>, prv: seq<int>, h: int, s: seq<int>) {
    && |nxt| == |prv| && Shape(|nxt|, h, s)
    && forall i {:trigger prv[s[i]]} :: 0 <= i < |s| ==> nxt[Pred(h, s, i)] == s[i] && prv[s[i]] == Pred(h, s, i)
  }

  /** Relinking the last node's `next` leaves the front as it is. */
  lemma FrontRelink(nxt: seq<int>, prv: seq<int>, h: int, s: seq<int>, x: int)
    requires FrontIn(nxt, prv, h, s)
    ensures FrontIn(nxt[Last(h, s) := x], prv, h, s)
  {
    var n1 := nxt[Last(h, s) := x];
    forall i | 0 <= i < |s| ensures n1[Pred(h, s, i)] == s[i] {
      assert prv[s[i]] == Pred(h, s, i);
      assert Pred(h, s, i) != Last(h, s);
    }
  }

  /** Linking x back to the last node, which already leads to x, extends the front by x. */
  lemma FrontExtend(nxt: seq<int>, prv: seq<int>, h: int, s: seq<int>, x: int)
    requires FrontIn(nxt, prv, h, s) && 0 <= x < |nxt| && x != h && x !in s
    requires nxt[Last(h, s)] == x
    ensures FrontIn(nxt, prv[x := Last(h, s)], h, s + [x])
  {
    var u := s + [x];
    DistinctConcat(s, [x]);
    forall i | 0 <= i < |u| ensures nxt[Pred(h, u, i)] == u[i] && prv[x := Last(h, s)][u[i]] == Pred(h, u, i) {
      if i < |s| {
        assert u[i] == s[i] && Pred(h, u, i) == Pred(h, s, i);
        assert prv[s[i]] == Pred(h, s, i);
      }
    }
  }

  /** Closing the front onto h makes the queue. */
  lemma FrontClose(nxt: seq<int>, prv: seq<int>, h: int, s: seq<int>)
    requires FrontIn(nxt, prv, h, s)
    ensures QueueIn(nxt[Last(h, s) := h], prv[h := Last(h, s)], h, s)
  {
    var n1, p1 := nxt[Last(h, s) := h], prv[h := Last(h, s)];
    if s != [] {
      assert prv[s[0]] == Pred(h, s, 0);
      assert n1[h] == nxt[Pred(h, s, 0)];
    }
    forall i | 0 <= i < |s| ensures n1[s[i]] == Succ(h, s, i) {
      if i + 1 < |s| {
        assert prv[s[i + 1]] == Pred(h, s, i + 1);
        assert s[i] != Last(h, s);
      }
    }
    forall i | 0 <= i < |s| ensures p1[s[i]] == Pred(h, s, i) {
      assert prv[s[i]] == Pred(h, s, i);
    }
  }

  /** A fresh node appended to the store disturbs no queue. */
  lemma QueueGrow(nxt: seq<int>, prv: seq<int>, h: int, s: seq<int>, x: int, y: int)
    requires QueueIn(nxt, prv, h, s)
    ensures QueueIn(nxt + [x], prv + [y], h, s)
  {
  }

  /**
   * Going from links n0/p0 to n1/p1 changed no node below |n0| outside t;
   * nodes at |n0| and beyond are the ones allocated in between.
   */
  ghost predicate Preserves(n0: seq<int>, p0: seq<int>, n1: seq<int>, p1: seq<int>, t: seq<int>) {
    && |n0| == |p0| && |n1| == |p1| && |n0| <= |n1|
    && forall y {:trigger n1[y]} {:trigger p1[y]} :: 0 <= y < |n0| && y !in t ==> n1[y] == n0[y] && p1[y] == p0[y]
  }

  /** Every node of t below n (that is, allocated before the store had n nodes) is a node of u. */
  ghost predicate Covers(u: seq<int>, n: int, t: seq<int>) {
    forall k :: 0 <= k < |t| && t[k] < n ==> t[k] in u
  }

  /** Two steps that each leave alone every old node outside t leave them alone together. */
  lemma PreservesTrans(n0: seq<int>, p0: seq<int>, n1: seq<int>, p1: seq<int>, n2: seq<int>, p2: seq<int>,
                       t1: seq<int>, t2: seq<int>, t: seq<int>)
    requires Preserves(n0, p0, n1, p1, t1) && Preserves(n1, p1, n2, p2, t2)
    requires Covers(t, |n0|, t1) && Covers(t, |n0|, t2)
    ensures Preserves(n0, p0, n2, p2, t)
  {
  }

  /** A queue none of whose nodes was touched is still a queue. */
  lemma PreservesQueue(n0: seq<int>, p0: seq<int>, n1: seq<int>, p1: seq<int>, t: seq<int>,
                       h: int, s: seq<int>)
    requires Preserves(n0, p0, n1, p1, t) && QueueIn(n0, p0, h, s)
    requires h !in t && forall i :: 0 <= i < |s| ==> s[i] !in t
    ensures QueueIn(n1, p1, h, s)
  {
    forall i | 0 <= i < |s| ensures n1[s[i]] == n0[s[i]] && p1[s[i]] == p0[s[i]] {
    }
  }

  /** A queue apart from the queue h1/s1, which holds every node that was touched, is still a queue. */
  lemma PreservesApart(n0: seq<int>, p0: seq<int>, n1: seq<int>, p1: seq<int>, t: seq<int>,
                       h1: int, s1: seq<int>, h2: int, s2: seq<int>)
    requires Preserves(n0, p0, n1, p1, t) && Covers([h1] + s1, |n0|, t)
    requires QueueIn(n0, p0, h2, s2) && Apart(h1, s1, h2, s2)
    ensures QueueIn(n1, p1, h2, s2)
  {
    forall k | 0 <= k < |s2| ensures s2[k] !in t {
      assert s2[k] < |n0|;
      assert s2[k] !in [h1] + s1;
    }
    assert h2 !in [h1] + s1;
    PreservesQueue(n0, p0, n1, p1, t, h2, s2);
  }

  /** What `list_move_tail` touches: the node moved and the two queues. */
  lemma MoveTailCovers(n: int, h: int, s: seq<int>, x: int, to: int, st: seq<int>)
    requires x in s
    ensures Covers([h] + s, n, [h] + s)
    ensures Covers([to] + (st + [x]), n, [to] + (st + [x]))
    ensures Covers([h, to] + s + st, n, [h] + s) && Covers([h, to] + s + st, n, [to] + (st + [x]))
  {
  }

  /** What `list_add` of a node allocated after the store had n nodes touches. */
  lemma AddFreshCovers(n: int, h: int, s: seq<int>, j: int, x: int)
    requires x >= n && 0 <= j <= |s|
    ensures Covers([h] + s, n, []) && Covers([h] + s, n, [h] + Insert(s, j, x))
  {
  }

  /** Reordering the nodes of a queue touches only its nodes. */
  lemma PermCovers(n: int, h: int, s: seq<int>, c: seq<int>)
    requires multiset(c) == multiset(s)
    ensures Covers([h] + s, n, [h] + c)
  {
    forall k | 0 <= k < |c| ensures c[k] in s {
      assert c[k] in multiset(c);
    }
  }

  /** Nodes all drawn from u are covered by u. */
  lemma SubCovers(u: seq<int>, n: int, t: seq<int>)
    requires multiset(t) <= multiset(u)
    ensures Covers(u, n, t)
  {
    forall k | 0 <= k < |t| ensures t[k] in u {
      assert t[k] in multiset(t);
    }
  }

  /** What `list_move` within one queue touches: that queue's nodes. */
  lemma MoveCovers(n: int, h: int, s: seq<int>, i: int, j: int)
    requires 0 <= i < |s| && 0 <= j < |s|
    ensures Covers([h] + s, n, [h] + s)
    ensures Covers([h] + s, n, [h] + Insert(Without(s, i), j, s[i]))
  {
    var u := Insert(Without(s, i), j, s[i]);
    forall k | 0 <= k < |u| ensures u[k] in s {
      var w := Without(s, i);
      if k < j {
        assert u[k] == w[k];
      } else if k > j {
        assert u[k] == w[k - 1];
      }
    }
  }

  lemma WithoutShape(n: int, h: int, s: seq<int>, i: int)
    requires Shape(n, h, s) && 0 <= i < |s|
    ensures Shape(n, h, Without(s, i))
  {
    var t := Without(s, i);
    forall a, b | 0 <= a < b < |t| ensures t[a] != t[b] {
      var a', b' := if a < i then a else a + 1, if b < i then b else b + 1;
      assert t[a] == s[a'] && t[b] == s[b'];
    }
    assert h !in t by {
      forall j | 0 <= j < |t| ensures t[j] != h {
        assert t[j] in s;
      }
    }
  }

  lemma DelNext(nxt: seq<int>, h: int, s: seq<int>, i: int)
    requires Shape(|nxt|, h, s) && NextRing(nxt, h, s) && 0 <= i < |s|
    requires Shape(|nxt|, h, Without(s, i))
    ensures NextRing(nxt[Pred(h, s, i) := Succ(h, s, i)], h, Without(s, i))
  {
    var p, q := Pred(h, s, i), Succ(h, s, i);
    var n2, t := nxt[p := q], Without(s, i);
    forall j | 0 <= j < |t| ensures n2[t[j]] == Succ(h, t, j) {
      var k := if j < i then j else j + 1;
      if k != i - 1 {
        assert s[k] != p;
      }
    }
  }

  lemma DelPrevAt(prv: seq<int>, h: int, s: seq<int>, i: int, j: int)
    requires Shape(|prv|, h, s) && PrevRing(prv, h, s) && 0 <= i < |s|
    requires 0 <= j < |s| - 1
    ensures prv[Succ(h, s, i) := Pred(h, s, i)][Without(s, i)[j]] == Pred(h, Without(s, i), j)
  {
    var t := Without(s, i);
    if j >= i {
      assert t[j] == s[j + 1];
      if j == i {
        assert Succ(h, s, i) == s[j + 1];
      } else {
        assert s[j + 1] != Succ(h, s, i);
        assert t[j - 1] == s[j];
      }
    } else {
      assert t[j] == s[j];
      assert s[j] != Succ(h, s, i);
    }
  }

  lemma DelPrev(prv: seq<int>, h: int, s: seq<int>, i: int)
    requires Shape(|prv|, h, s) && PrevRing(prv, h, s) && 0 <= i < |s|
    requires Shape(|prv|, h, Without(s, i))
    ensures PrevRing(prv[Succ(h, s, i) := Pred(h, s, i)], h, Without(s, i))
  {
    var p, q := Pred(h, s, i), Succ(h, s, i);
    var p2, t := prv[q := p], Without(s, i);
    if i + 1 < |s| {
      assert q == s[i + 1] && q != h;
      assert t[|t| - 1] == s[|s| - 1];
    }
    forall j | 0 <= j < |t| ensures p2[t[j]] == Pred(h, t, j) {
      DelPrevAt(prv, h, s, i, j);
    }
  }

  /** `list_del` on the i-th element: its neighbours are linked to each other. */
  lemma DelQueue(nxt: seq<int>, prv: seq<int>, h: int, s: seq<int>, i: int)
    requires QueueIn(nxt, prv, h, s) && 0 <= i < |s|
    ensures prv[s[i]] == Pred(h, s, i) && nxt[s[i]] == Succ(h, s, i)
    ensures QueueIn(nxt[Pred(h, s, i) := Succ(h, s, i)], prv[Succ(h, s, i) := Pred(h, s, i)],
                    h, Without(s, i))
  {
    WithoutShape(|nxt|, h, s, i);
    DelNext(nxt, h, s, i);
    DelPrev(prv, h, s, i);
  }

  /** The node after which position j of s is inserted: h for the front. */
  function At(h: int, s: seq<int>, j: int): int
    requires 0 <= j <= |s|
  {
    if j == 0 then h else s[j - 1]
  }

  /** The node that follows position j of s once x is inserted there. */
  function Behind(h: int, s: seq<int>, j: int): int
    requires 0 <= j <= |s|
  {
    if j < |s| then s[j] else h
  }

  lemma InsertShape(n: int, h: int, s: seq<int>, j: int, x: int)
    requires Shape(n, h, s) && 0 <= j <= |s| && 0 <= x < n && x != h && x !in s
    ensures Shape(n, h, Insert(s, j, x))
  {
    var u := Insert(s, j, x);
    forall a, b | 0 <= a < b < |u| ensures u[a] != u[b] {
      if a != j && b != j {
        var a', b' := if a < j then a else a - 1, if b < j then b else b - 1;
        assert u[a] == s[a'] && u[b] == s[b'];
      } else if a == j {
        assert u[b] in s;
      } else {
        assert u[a] in s;
      }
    }
    assert h !in u by {
      forall k | 0 <= k < |u| ensures u[k] != h {
        if k != j {
          assert u[k] in s;
        }
      }
    }
  }

  lemma AddNextAt(nxt: seq<int>, h: int, s: seq<int>, j: int, x: int, k: int)
    requires Shape(|nxt|, h, s) && NextRing(nxt, h, s) && 0 <= j <= |s|
    requires 0 <= x < |nxt| && x != h && x !in s
    requires 0 <= k <= |s|
    ensures nxt[x := Behind(h, s, j)][At(h, s, j) := x][Insert(s, j, x)[k]] == Succ(h, Insert(s, j, x), k)
  {
    var u := Insert(s, j, x);
    if k < j {
      assert u[k] == s[k];
      if k < j - 1 {
        assert s[k] != At(h, s, j);
        assert u[k + 1] == s[k + 1];
      }
    } else if k > j {
      assert u[k] == s[k - 1] && s[k - 1] != At(h, s, j);
      if k < |s| {
        assert u[k + 1] == s[k];
      }
    } else if k < |s| {
      assert u[k + 1] == s[k];
    }
  }

  lemma AddPrevAt(prv: seq<int>, h: int, s: seq<int>, j: int, x: int, k: int)
    requires Shape(|prv|, h, s) && PrevRing(prv, h, s) && 0 <= j <= |s|
    requires 0 <= x < |prv| && x != h && x !in s
    requires 0 <= k <= |s|
    ensures prv[Behind(h, s, j) := x][x := At(h, s, j)][Insert(s, j, x)[k]] == Pred(h, Insert(s, j, x), k)
  {
    var u := Insert(s, j, x);
    if k < j {
      assert u[k] == s[k] && s[k] != Behind(h, s, j);
      if k > 0 {
        assert u[k - 1] == s[k - 1];
      }
    } else if k > j {
      assert u[k] == s[k - 1];
      if k > j + 1 {
        assert s[k - 1] != Behind(h, s, j);
        assert u[k - 1] == s[k - 2];
      }
    } else if k > 0 {
      assert u[k - 1] == s[k - 1];
    }
  }

  lemma AddNext(nxt: seq<int>, h: int, s: seq<int>, j: int, x: int)
    requires Shape(|nxt|, h, s) && NextRing(nxt, h, s) && 0 <= j <= |s|
    requires 0 <= x < |nxt| && x != h && x !in s
    requires Shape(|nxt|, h, Insert(s, j, x))
    ensures nxt[At(h, s, j)] == Behind(h, s, j)
    ensures NextRing(nxt[x := Behind(h, s, j)][At(h, s, j) := x], h, Insert(s, j, x))
  {
    var u := Insert(s, j, x);
    var n2 := nxt[x := Behind(h, s, j)][At(h, s, j) := x];
    if j > 0 {
      assert nxt[s[j - 1]] == Succ(h, s, j - 1);
    }
    forall k | 0 <= k < |u| ensures n2[u[k]] == Succ(h, u, k) {
      AddNextAt(nxt, h, s, j, x, k);
    }
  }

  lemma AddPrev(prv: seq<int>, h: int, s: seq<int>, j: int, x: int)
    requires Shape(|prv|, h, s) && PrevRing(prv, h, s) && 0 <= j <= |s|
    requires 0 <= x < |prv| && x != h && x !in s
    requires Shape(|prv|, h, Insert(s, j, x))
    ensures PrevRing(prv[Behind(h, s, j) := x][x := At(h, s, j)], h, Insert(s, j, x))
  {
    var u := Insert(s, j, x);
    var p2 := prv[Behind(h, s, j) := x][x := At(h, s, j)];
    forall k | 0 <= k < |u| ensures p2[u[k]] == Pred(h, u, k) {
      AddPrevAt(prv, h, s, j, x, k);
    }
    if j < |s| {
      assert u[|u| - 1] == s[|s| - 1];
    }
  }

  /** `list_add(x, at)` where at is the node before position j: x becomes the node at position j. */
  lemma AddQueue(nxt: seq<int>, prv: seq<int>, h: int, s: seq<int>, j: int, x: int)
    requires QueueIn(nxt, prv, h, s) && 0 <= j <= |s|
    requires 0 <= x < |nxt| && x != h && x !in s
    ensures nxt[At(h, s, j)] == Behind(h, s, j)
    ensures QueueIn(nxt[x := Behind(h, s, j)][At(h, s, j) := x], prv[Behind(h, s, j) := x][x := At(h, s, j)],
                    h, Insert(s, j, x))
  {
    InsertShape(|nxt|, h, s, j, x);
    AddNext(nxt, h, s, j, x);
    AddPrev(prv, h, s, j, x);
  }

  /** Two queues share no node. */
  ghost predicate Apart(h1: int, s1: seq<int>, h2: int, s2: seq<int>) {
    h1 != h2 && h1 !in s2 && h2 !in s1 && Disjoint(s1, s2)
  }

  lemma ApartSym(h1: int, s1: seq<int>, h2: int, s2: seq<int>)
    requires Apart(h1, s1, h2, s2)
    ensures Apart(h2, s2, h1, s1)
  {
  }

  /**
   * Moving the first node of s to the end of st, where both queues are apart
   * from the queue o, leaves both apart from o.
   */
  lemma ApartShift(h: int, s: seq<int>, to: int, st: seq<int>, o: int, so: seq<int>)
    requires s != [] && Apart(h, s, o, so) && Apart(to, st, o, so)
    ensures Apart(h, s[1..], o, so) && Apart(to, st + [s[0]], o, so)
  {
  }

  /** Reordering the elements of two queues keeps them apart. */
  lemma ApartPerm(h1: int, s1: seq<int>, h2: int, s2: seq<int>, r1: seq<int>, r2: seq<int>)
    requires Apart(h1, s1, h2, s2) && multiset(r1) == multiset(s1) && multiset(r2) == multiset(s2)
    ensures Apart(h1, r1, h2, r2)
  {
    forall x | x in r1 ensures x in s1 {
      assert x in multiset(r1);
    }
    forall x | x in r2 ensures x in s2 {
      assert x in multiset(r2);
    }
  }

  /** Two queues apart from o make an order apart from o. */
  lemma ApartJoin(h: int, a: seq<int>, g: int, b: seq<int>, o: int, so: seq<int>)
    requires Apart(h, a, o, so) && Apart(g, b, o, so)
    ensures Apart(h, a + b, o, so)
  {
  }

  /** Moving the i-th node of s to the end of st keeps the two queues apart. */
  lemma MoveApart(n: int, h: int, s: seq<int>, i: int, to: int, st: seq<int>)
    requires Shape(n, h, s) && Shape(n, to, st) && Apart(h, s, to, st) && 0 <= i < |s|
    ensures Apart(h, Without(s, i), to, st + [s[i]]) && Apart(to, st + [s[i]], h, Without(s, i))
  {
    var w := Without(s, i);
    forall k | 0 <= k < |w| ensures w[k] != s[i] && w[k] !in st && w[k] != to {
      assert w[k] == s[if k < i then k else k + 1];
    }
  }

  lemma ConcatShape(n: int, h: int, a: seq<int>, b: seq<int>)
    requires Shape(n, h, a) && InStore(n, b) && Distinct(b) && h !in b && Disjoint(a, b)
    ensures Shape(n, h, a + b)
  {
    DistinctConcat(a, b);
  }

  // list_splice_tail_init(l, h): l's elements are appended to h and l is left empty.

  lemma SpliceTailNextAt(nxt: seq<int>, l: int, sl: seq<int>, h: int, sh: seq<int>, k: int)
    requires Shape(|nxt|, l, sl) && NextRing(nxt, l, sl) && Shape(|nxt|, h, sh) && NextRing(nxt, h, sh)
    requires Apart(l, sl, h, sh) && sl != [] && 0 <= k < |sh| + |sl|
    ensures nxt[Last(h, sh) := sl[0]][sl[|sl| - 1] := h][l := l][(sh + sl)[k]] == Succ(h, sh + sl, k)
  {
    var u := sh + sl;
    if k < |sh| {
      assert u[k] == sh[k] && sh[k] != l && sh[k] !in sl;
      if k + 1 < |sh| {
        assert u[k + 1] == sh[k + 1];
      } else {
        assert u[k + 1] == sl[0];
      }
    } else {
      assert u[k] == sl[k - |sh|] && sl[k - |sh|] != l && sl[k - |sh|] !in sh && sl[k - |sh|] != h;
      if k + 1 < |u| {
        assert u[k + 1] == sl[k - |sh| + 1];
      }
    }
  }

  lemma SpliceTailPrevAt(prv: seq<int>, l: int, sl: seq<int>, h: int, sh: seq<int>, k: int)
    requires Shape(|prv|, l, sl) && PrevRing(prv, l, sl) && Shape(|prv|, h, sh) && PrevRing(prv, h, sh)
    requires Apart(l, sl, h, sh) && sl != [] && 0 <= k < |sh| + |sl|
    ensures prv[sl[0] := Last(h, sh)][h := sl[|sl| - 1]][l := l][(sh + sl)[k]] == Pred(h, sh + sl, k)
  {
    var u := sh + sl;
    if k < |sh| {
      assert u[k] == sh[k] && sh[k] != l && sh[k] !in sl;
      if k > 0 {
        assert u[k - 1] == sh[k - 1];
      }
    } else {
      assert u[k] == sl[k - |sh|] && sl[k - |sh|] != l && sl[k - |sh|] != h;
      if k > |sh| {
        assert u[k - 1] == sl[k - |sh| - 1];
        assert sl[k - |sh|] != sl[0];
      } else if k > 0 {
        assert u[k - 1] == sh[|sh| - 1];
      }
    }
  }

  lemma SpliceTailQueue(nxt: seq<int>, prv: seq<int>, l: int, sl: seq<int>, h: int, sh: seq<int>)
    requires QueueIn(nxt, prv, l, sl) && QueueIn(nxt, prv, h, sh) && Apart(l, sl, h, sh) && sl != []
    ensures nxt[l] == sl[0] && prv[l] == sl[|sl| - 1] && prv[h] == Last(h, sh)
    ensures var n2 := nxt[Last(h, sh) := sl[0]][sl[|sl| - 1] := h][l := l];
      var p2 := prv[sl[0] := Last(h, sh)][h := sl[|sl| - 1]][l := l];
      QueueIn(n2, p2, h, sh + sl) && QueueIn(n2, p2, l, [])
  {
    var n2 := nxt[Last(h, sh) := sl[0]][sl[|sl| - 1] := h][l := l];
    var p2 := prv[sl[0] := Last(h, sh)][h := sl[|sl| - 1]][l := l];
    var u := sh + sl;
    ConcatShape(|nxt|, h, sh, sl);
    assert u[0] == First(h, sh + sl) && u[|u| - 1] == sl[|sl| - 1];
    if sh != [] {
      assert u[0] == sh[0];
    }
    assert n2[h] == First(h, u) && p2[h] == Last(h, u);
    assert n2[l] == l && p2[l] == l;
    forall k | 0 <= k < |u| ensures n2[u[k]] == Succ(h, u, k) {
      SpliceTailNextAt(nxt, l, sl, h, sh, k);
    }
    forall k | 0 <= k < |u| ensures p2[u[k]] == Pred(h, u, k) {
      SpliceTailPrevAt(prv, l, sl, h, sh, k);
    }
  }

  // list_splice(l, h): l's elements are put in front of h's; l itself is not reset.

  lemma SpliceNextAt(nxt: seq<int>, l: int, sl: seq<int>, h: int, sh: seq<int>, k: int)
    requires Shape(|nxt|, l, sl) && NextRing(nxt, l, sl) && Shape(|nxt|, h, sh) && NextRing(nxt, h, sh)
    requires Apart(l, sl, h, sh) && sl != [] && 0 <= k < |sl| + |sh|
    ensures nxt[h := sl[0]][sl[|sl| - 1] := First(h, sh)][(sl + sh)[k]] == Succ(h, sl + sh, k)
  {
    var u := sl + sh;
    if k < |sl| {
      assert u[k] == sl[k] && sl[k] != h;
      if k + 1 < |sl| {
        assert u[k + 1] == sl[k + 1];
      } else if sh != [] {
        assert u[k + 1] == sh[0];
      }
    } else {
      assert u[k] == sh[k - |sl|] && sh[k - |sl|] !in sl;
      if k + 1 < |u| {
        assert u[k + 1] == sh[k - |sl| + 1];
      }
    }
  }

  lemma SplicePrevAt(prv: seq<int>, l: int, sl: seq<int>, h: int, sh: seq<int>, k: int)
    requires Shape(|prv|, l, sl) && PrevRing(prv, l, sl) && Shape(|prv|, h, sh) && PrevRing(prv, h, sh)
    requires Apart(l, sl, h, sh) && sl != [] && 0 <= k < |sl| + |sh|
    ensures prv[sl[0] := h][First(h, sh) := sl[|sl| - 1]][(sl + sh)[k]] == Pred(h, sl + sh, k)
  {
    var u := sl + sh;
    if k < |sl| {
      assert u[k] == sl[k] && sl[k] !in sh && sl[k] != h;
      if k > 0 {
        assert u[k - 1] == sl[k - 1];
        assert sl[k] != sl[0];
      }
    } else {
      assert u[k] == sh[k - |sl|] && sh[k - |sl|] !in sl;
      if k > |sl| {
        assert u[k - 1] == sh[k - |sl| - 1];
        assert sh[k - |sl|] != sh[0];
      } else {
        assert u[k - 1] == sl[|sl| - 1];
      }
    }
  }

  lemma SpliceQueue(nxt: seq<int>, prv: seq<int>, l: int, sl: seq<int>, h: int, sh: seq<int>)
    requires QueueIn(nxt, prv, l, sl) && QueueIn(nxt, prv, h, sh) && Apart(l, sl, h, sh) && sl != []
    ensures nxt[l] == sl[0] && prv[l] == sl[|sl| - 1] && nxt[h] == First(h, sh)
    ensures QueueIn(nxt[h := sl[0]][sl[|sl| - 1] := First(h, sh)], prv[sl[0] := h][First(h, sh) := sl[|sl| - 1]],
                    h, sl + sh)
  {
    var n2 := nxt[h := sl[0]][sl[|sl| - 1] := First(h, sh)];
    var p2 := prv[sl[0] := h][First(h, sh) := sl[|sl| - 1]];
    var u := sl + sh;
    DisjointSym(sl, sh);
    ConcatShape(|nxt|, h, sl, sh);
    assert u[0] == sl[0];
    if sh != [] {
      assert u[|u| - 1] == sh[|sh| - 1];
      assert sl[|sl| - 1] != h;
    } else {
      assert u[|u| - 1] == sl[|sl| - 1];
    }
    assert n2[h] == First(h, u) && p2[h] == Last(h, u);
    forall k | 0 <= k < |u| ensures n2[u[k]] == Succ(h, u, k) {
      SpliceNextAt(nxt, l, sl, h, sh, k);
    }
    forall k | 0 <= k < |u| ensures p2[u[k]] == Pred(h, u, k) {
      SplicePrevAt(prv, l, sl, h, sh, k);
    }
  }

  /** A slice of a queue's order, closed by a node outside it, has the same shape. */
  lemma SliceShape(n: int, h: int, s: seq<int>, g: int, lo: int, hi: int)
    requires Shape(n, h, s) && 0 <= lo <= hi <= |s| && 0 <= g < n && g !in s
    ensures Shape(n, g, s[lo..hi])
  {
    var c := s[lo..hi];
    forall i, j | 0 <= i < j < |c| ensures c[i] != c[j] {
      assert c[i] == s[lo + i] && c[j] == s[lo + j];
    }
    assert g !in c by {
      forall k | 0 <= k < |c| ensures c[k] != g {
        assert c[k] == s[lo + k];
      }
    }
  }

  // list_cut_position(to, h, node) with node the m-th element (m >= 1): the
  // elements up to and including node move, in order, to the queue headed by to.

  lemma CutNextAt(nxt: seq<int>, to: int, h: int, s: seq<int>, m: int, k: int)
    requires Shape(|nxt|, h, s) && NextRing(nxt, h, s) && 1 <= m <= |s|
    requires 0 <= to < |nxt| && to != h && to !in s
    requires 0 <= k < |s|
    ensures var n2 := nxt[to := s[0]][s[m - 1] := to][h := Behind(h, s, m)];
      if k < m then n2[s[k]] == Succ(to, s[..m], k) else n2[s[k]] == Succ(h, s[m..], k - m)
  {
    assert s[k] != h && s[k] != to;
    if k < m - 1 {
      assert s[k] != s[m - 1];
      assert s[..m][k + 1] == s[k + 1];
    } else if k >= m {
      assert s[k] != s[m - 1];
      if k + 1 < |s| {
        assert s[m..][k - m + 1] == s[k + 1];
      }
    }
  }

  lemma CutPrevAt(prv: seq<int>, to: int, h: int, s: seq<int>, m: int, k: int)
    requires Shape(|prv|, h, s) && PrevRing(prv, h, s) && 1 <= m <= |s|
    requires 0 <= to < |prv| && to != h && to !in s
    requires 0 <= k < |s|
    ensures var p2 := prv[s[0] := to][to := s[m - 1]][Behind(h, s, m) := h];
      if k < m then p2[s[k]] == Pred(to, s[..m], k) else p2[s[k]] == Pred(h, s[m..], k - m)
  {
    assert s[k] != to;
    if 0 < k < m {
      assert s[k] != s[0] && s[k] != Behind(h, s, m);
      assert s[..m][k - 1] == s[k - 1];
    } else if k == 0 {
      assert s[0] != Behind(h, s, m);
    } else if k > m {
      assert s[k] != s[0] && s[k] != s[m];
      assert s[m..][k - m - 1] == s[k - 1];
    }
  }

  /** Cutting an order in two, with a new head for the front, leaves two queues sharing no node. */
  lemma SplitApart(n: int, h: int, s: seq<int>, to: int, m: int)
    requires Shape(n, h, s) && 0 <= m <= |s| && to != h && to !in s
    ensures Apart(to, s[..m], h, s[m..])
  {
    assert s == s[..m] + s[m..];
    DistinctConcat(s[..m], s[m..]);
    forall k | 0 <= k < |s| - m ensures s[m..][k] != to {
      assert s[m..][k] == s[m + k];
    }
    forall k | 0 <= k < m ensures s[..m][k] != h {
      assert s[..m][k] == s[k];
    }
  }

  /** The cut-off front is a queue headed by to. */
  lemma CutFront(nxt: seq<int>, prv: seq<int>, to: int, h: int, s: seq<int>, m: int)
    requires QueueIn(nxt, prv, h, s) && 1 <= m <= |s|
    requires 0 <= to < |nxt| && to != h && to !in s
    ensures QueueIn(nxt[to := s[0]][s[m - 1] := to][h := Behind(h, s, m)],
                    prv[s[0] := to][to := s[m - 1]][Behind(h, s, m) := h], to, s[..m])
  {
    var n2 := nxt[to := s[0]][s[m - 1] := to][h := Behind(h, s, m)];
    var p2 := prv[s[0] := to][to := s[m - 1]][Behind(h, s, m) := h];
    var a := s[..m];
    SliceShape(|nxt|, h, s, to, 0, m);
    assert a == s[0..m];
    forall k | 0 <= k < |a| ensures n2[a[k]] == Succ(to, a, k) && p2[a[k]] == Pred(to, a, k) {
      assert a[k] == s[k];
      CutNextAt(nxt, to, h, s, m, k);
      CutPrevAt(prv, to, h, s, m, k);
    }
  }

  lemma CutBackNext(nxt: seq<int>, to: int, h: int, s: seq<int>, m: int)
    requires Shape(|nxt|, h, s) && NextRing(nxt, h, s) && 1 <= m <= |s|
    requires 0 <= to < |nxt| && to != h && to !in s
    requires Shape(|nxt|, h, s[m..])
    ensures NextRing(nxt[to := s[0]][s[m - 1] := to][h := Behind(h, s, m)], h, s[m..])
  {
    var n2 := nxt[to := s[0]][s[m - 1] := to][h := Behind(h, s, m)];
    var b := s[m..];
    forall k | 0 <= k < |b| ensures n2[b[k]] == Succ(h, b, k) {
      assert b[k] == s[m + k];
      CutNextAt(nxt, to, h, s, m, m + k);
    }
  }

  lemma CutBackPrev(prv: seq<int>, to: int, h: int, s: seq<int>, m: int)
    requires Shape(|prv|, h, s) && PrevRing(prv, h, s) && 1 <= m <= |s|
    requires 0 <= to < |prv| && to != h && to !in s
    requires Shape(|prv|, h, s[m..])
    ensures PrevRing(prv[s[0] := to][to := s[m - 1]][Behind(h, s, m) := h], h, s[m..])
  {
    var p2 := prv[s[0] := to][to := s[m - 1]][Behind(h, s, m) := h];
    var b := s[m..];
    if m < |s| {
      assert s[m] != s[0] && s[m] != to && h != s[0];
      assert b[|b| - 1] == s[|s| - 1];
    }
    assert p2[h] == Last(h, b);
    forall k | 0 <= k < |b| ensures p2[b[k]] == Pred(h, b, k) {
      assert b[k] == s[m + k];
      CutPrevAt(prv, to, h, s, m, m + k);
    }
  }

  /** What stays behind is still a queue headed by h. */
  lemma CutBack(nxt: seq<int>, prv: seq<int>, to: int, h: int, s: seq<int>, m: int)
    requires QueueIn(nxt, prv, h, s) && 1 <= m <= |s|
    requires 0 <= to < |nxt| && to != h && to !in s
    ensures QueueIn(nxt[to := s[0]][s[m - 1] := to][h := Behind(h, s, m)],
                    prv[s[0] := to][to := s[m - 1]][Behind(h, s, m) := h], h, s[m..])
  {
    SliceShape(|nxt|, h, s, h, m, |s|);
    assert s[m..] == s[m..|s|];
    CutBackNext(nxt, to, h, s, m);
    CutBackPrev(prv, to, h, s, m);
  }

  lemma CutQueue(nxt: seq<int>, prv: seq<int>, to: int, h: int, s: seq<int>, m: int)
    requires QueueIn(nxt, prv, h, s) && 1 <= m <= |s|
    requires 0 <= to < |nxt| && to != h && to !in s
    ensures nxt[s[m - 1]] == Behind(h, s, m) && nxt[h] == s[0]
    ensures var n2 := nxt[to := s[0]][s[m - 1] := to][h := Behind(h, s, m)];
      var p2 := prv[s[0] := to][to := s[m - 1]][Behind(h, s, m) := h];
      QueueIn(n2, p2, to, s[..m]) && QueueIn(n2, p2, h, s[m..]) && Apart(to, s[..m], h, s[m..])
  {
    CutFront(nxt, prv, to, h, s, m);
    CutBack(nxt, prv, to, h, s, m);
    SplitApart(|nxt|, h, s, to, m);
  }

  /** A queue is a queue of any order equal to its own: restates the queue in the form the caller needs. */
  lemma QueueSame(m: Heap, h: int, a: seq<int>, b: seq<int>)
    requires m.IsQueue(h, a) && a == b
    ensures m.IsQueue(h, b)
  {
  }

  /**
   * The node store: the `next`/`prev` links of every `struct list_head` ever
   * allocated and the string of every element node (`element_t.value`).
   * Allocation appends a node; release is not modelled.
   */
  class Heap {
    var next: seq<int>
    var prev: seq<int>
    var val: map<int, Str>

    constructor ()
      ensures next == [] && prev == [] && val == map[]
    {
      next, prev, val := [], [], map[];
    }

    /** h heads a queue whose elements, in order, are s. */
    ghost predicate IsQueue(h: int, s: seq<int>)
      reads this
    {
      QueueIn(next, prev, h, s)
    }

    /** A fresh node, initialised as an empty list (`INIT_LIST_HEAD`). */
    method NewNode() returns (x: int)
      requires |next| == |prev|
      modifies this
      ensures x == |old(next)|
      ensures next == old(next) + [x] && prev == old(prev) + [x] && val == old(val)
      ensures IsQueue(x, [])
      ensures Preserves(old(next), old(prev), next, prev, [])
    {
      x := |next|;
      next, prev := next + [x], prev + [x];
    }

    /** `list_del(x)` for the element at position i of the queue h. */
    method Del(x: int, ghost h: int, ghost s: seq<int>, ghost i: int)
      requires IsQueue(h, s) && 0 <= i < |s| && s[i] == x
      modifies this
      ensures next == old(next)[old(prev[x]) := old(next[x])]
      ensures prev == old(prev)[old(next[x]) := old(prev[x])]
      ensures val == old(val)
      ensures IsQueue(h, Without(s, i))
      ensures Preserves(old(next), old(prev), next, prev, [h] + s)
    {
      DelQueue(next, prev, h, s, i);
      var p, q := prev[x], next[x];
      ghost var n2, p2 := next[p := q], prev[q := p];
      assert QueueIn(n2, p2, h, Without(s, i));
      next, prev := next[p := q], prev[q := p];
      assert next == n2 && prev == p2;
    }

    /**
     * `list_add(x, at)`, where at is the node before position j of the queue h
     * (h itself for j = 0): x becomes the element at position j.
     */
    method Add(x: int, at: int, ghost h: int, ghost s: seq<int>, ghost j: int)
      requires IsQueue(h, s) && 0 <= j <= |s| && at == At(h, s, j)
      requires 0 <= x < |next| && x != h && x !in s
      modifies this
      ensures next == old(next)[x := old(next[at])][at := x]
      ensures prev == old(prev)[old(next[at]) := x][x := at]
      ensures val == old(val)
      ensures IsQueue(h, Insert(s, j, x))
      ensures Preserves(old(next), old(prev), next, prev, [h] + Insert(s, j, x))
    {
      AddQueue(next, prev, h, s, j, x);
      var n := next[at];
      assert n == Behind(h, s, j);
      next, prev := next[x := n][at := x], prev[n := x][x := at];
    }

    /**
     * `list_move(x, at)` within one queue: x, the i-th element of the queue h,
     * is taken out and put back behind at, the node before position j of what
     * remains, so that it becomes the element at position j.
     */
    method Move(x: int, at: int, ghost h: int, ghost s: seq<int>, ghost i: int, ghost j: int)
      requires IsQueue(h, s) && 0 <= i < |s| && s[i] == x
      requires 0 <= j < |s| && at == At(h, Without(s, i), j)
      modifies this
      ensures val == old(val)
      ensures IsQueue(h, Insert(Without(s, i), j, x))
      ensures Preserves(old(next), old(prev), next, prev, [h] + s)
    {
      ghost var n0, p0 := next, prev;
      Del(x, h, s, i);
      ghost var n1, p1 := next, prev;
      WithoutDrops(s, i);
      Add(x, at, h, Without(s, i), j);
      MoveCovers(|n0|, h, s, i, j);
      PreservesTrans(n0, p0, n1, p1, next, prev, [h] + s, [h] + Insert(Without(s, i), j, x), [h] + s);
    }

    /**
     * `list_move_tail(x, to)` for x the i-th element of the queue h: x leaves h
     * and becomes the last element of the queue to.
     */
    method MoveTail(x: int, to: int, ghost h: int, ghost s: seq<int>, ghost i: int, ghost st: seq<int>)
      requires IsQueue(h, s) && IsQueue(to, st) && Apart(h, s, to, st) && 0 <= i < |s| && s[i] == x
      modifies this
      ensures val == old(val)
      ensures IsQueue(h, Without(s, i)) && IsQueue(to, st + [x]) && Apart(h, Without(s, i), to, st + [x])
      ensures Preserves(old(next), old(prev), next, prev, [h, to] + s + st)
    {
      ghost var n0, p0 := next, prev;
      Del(x, h, s, i);
      MoveTailCovers(|n0|, h, s, x, to, st);
      PreservesApart(n0, p0, next, prev, [h] + s, h, s, to, st);
      ghost var n1, p1 := next, prev;
      var at := prev[to];
      Add(x, at, to, st, |st|);
      InsertEnds(st, x);
      MoveApart(|next|, h, s, i, to, st);
      MoveTailCovers(|n0|, h, s, x, to, st);
      PreservesApart(n1, p1, next, prev, [to] + (st + [x]), to, st + [x], h, Without(s, i));
      PreservesTrans(n0, p0, n1, p1, next, prev, [h] + s, [to] + (st + [x]), [h, to] + s + st);
    }

    /** `list_splice_tail_init(l, h)`: l's elements go, in order, to the end of h; l is left empty. */
    method SpliceTailInit(l: int, h: int, ghost sl: seq<int>, ghost sh: seq<int>)
      requires IsQueue(l, sl) && IsQueue(h, sh) && Apart(l, sl, h, sh)
      modifies this
      ensures sl == [] ==> next == old(next) && prev == old(prev)
      ensures sl != [] ==>
        && next == old(next)[Last(h, sh) := sl[0]][sl[|sl| - 1] := h][l := l]
        && prev == old(prev)[sl[0] := Last(h, sh)][h := sl[|sl| - 1]][l := l]
      ensures val == old(val)
      ensures IsQueue(h, sh + sl) && IsQueue(l, [])
      ensures Preserves(old(next), old(prev), next, prev, [l, h] + sl + sh)
    {
      if next[l] != l {
        assert sl != [];
        SpliceTailQueue(next, prev, l, sl, h, sh);
        var first, last, at := next[l], prev[l], prev[h];
        prev := prev[first := at];
        next := next[at := first];
        next := next[last := h];
        prev := prev[h := last];
        next, prev := next[l := l], prev[l := l];
      } else {
        assert sl == [];
        assert sh + sl == sh;
      }
    }

    /**
     * `list_splice(l, h)`: l's elements go, in order, to the front of h. l's
     * own links are left as they were and no longer describe a queue.
     */
    method Splice(l: int, h: int, ghost sl: seq<int>, ghost sh: seq<int>)
      requires IsQueue(l, sl) && IsQueue(h, sh) && Apart(l, sl, h, sh)
      modifies this
      ensures sl == [] ==> next == old(next) && prev == old(prev)
      ensures sl != [] ==>
        && next == old(next)[h := sl[0]][sl[|sl| - 1] := First(h, sh)]
        && prev == old(prev)[sl[0] := h][First(h, sh) := sl[|sl| - 1]]
      ensures val == old(val)
      ensures IsQueue(h, sl + sh)
      ensures Preserves(old(next), old(prev), next, prev, [l, h] + sl + sh)
    {
      if next[l] != l {
        assert sl != [];
        SpliceQueue(next, prev, l, sl, h, sh);
        var first, last, at := next[l], prev[l], next[h];
        prev := prev[first := h];
        next := next[h := first];
        next := next[last := at];
        prev := prev[at := last];
      } else {
        assert sl == [];
        assert sl + sh == sh;
      }
    }

    /**
     * `list_cut_position(to, h, node)` with node the m-th element of h
     * (m >= 1): the first m elements move, in order, to the queue headed by
     * to; the rest stay with h.
     */
    method CutPosition(to: int, h: int, node: int, ghost s: seq<int>, ghost m: int)
      requires IsQueue(h, s) && 1 <= m <= |s| && node == s[m - 1]
      requires 0 <= to < |next| && to != h && to !in s
      modifies this
      ensures next == old(next)[to := s[0]][node := to][h := Behind(h, s, m)]
      ensures prev == old(prev)[s[0] := to][to := node][Behind(h, s, m) := h]
      ensures val == old(val)
      ensures IsQueue(to, s[..m]) && IsQueue(h, s[m..]) && Apart(to, s[..m], h, s[m..])
      ensures Preserves(old(next), old(prev), next, prev, [to, h] + s)
    {
      CutQueue(next, prev, to, h, s, m);
      var newFirst := next[node];
      next := next[to := next[h]];
      prev := prev[next[to] := to];
      prev := prev[to := node];
      next := next[node := to];
      next := next[h := newFirst];
      prev := prev[newFirst := h];
    }
  }
}
