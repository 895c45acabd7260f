/** The counted selection trees of `SlidingNewImage`, laid out as implicit
    binary trees over a buffer of `n` slots.  The leaf of slot k is node
    `k + n - 1`; node p has children `2p + 1` and `2p + 2`.  Each node is a
    pair (`first`, `second`): the slot it points at and how many live leaves
    lie below it.  A min-tree points at the smallest live value, a max-tree
    at the largest; `updateFrom` repairs the path above a changed leaf. */
module Tree {

  datatype Node = Node(first: int, second: int)

  /** The tree node that is the leaf of slot k. */
  function Leaf(n: int, k: int): int {
    k + n - 1
  }

  /** Node q is node j or one of its ancestors. */
  predicate Under(q: int, j: int)
    decreases j
  {
    0 <= q <= j && (j == q || Under(q, (j - 1) / 2))
  }

  lemma {:induction false} UnderParent(q: int, j: int)
    requires q >= 1 && Under(q, j)
    ensures Under((q - 1) / 2, j)
    decreases j
  {
    if j != q {
      UnderParent(q, (j - 1) / 2);
    }
  }

  /** A proper descendant of q lies below one of its two children. */
  lemma {:induction false} UnderSplit(q: int, j: int)
    requires Under(q, j) && j != q
    ensures Under(2 * q + 1, j) || Under(2 * q + 2, j)
    decreases j
  {
    if (j - 1) / 2 != q {
      UnderSplit(q, (j - 1) / 2);
    }
  }

  /** No node lies below both children of a node. */
  lemma {:induction false} UnderSiblings(q: int, j: int)
    requires q >= 0 && Under(2 * q + 1, j)
    ensures !Under(2 * q + 2, j)
    decreases j
  {
    if j > 2 * q + 2 {
      UnderSiblings(q, (j - 1) / 2);
    }
  }

  /** A proper descendant of q lies at or past q's first child. */
  lemma {:induction false} UnderBelow(q: int, j: int)
    requires Under(q, j) && j != q
    ensures j >= 2 * q + 1
    decreases j
  {
    if (j - 1) / 2 != q {
      UnderBelow(q, (j - 1) / 2);
    }
  }

  /** Two nodes on the path from j to the root: the smaller is above the
      larger. */
  lemma {:induction false} UnderChain(a: int, b: int, j: int)
    requires Under(a, j) && Under(b, j) && a <= b
    ensures Under(a, b)
    decreases j
  {
    if j != b {
      UnderChain(a, b, (j - 1) / 2);
    }
  }

  lemma ParentUnder(j: int)
    requires j >= 1
    ensures Under((j - 1) / 2, j)
  {
    assert Under((j - 1) / 2, (j - 1) / 2);
  }

  lemma {:induction false} UnderRoot(j: int)
    requires j >= 0
    ensures Under(0, j)
    decreases j
  {
    if j != 0 {
      UnderRoot((j - 1) / 2);
    }
  }

  /** Whether slot i is to be preferred over slot j: the lower value in the
      min-tree, the higher in the max-tree. */
  predicate Prefers(buf: seq<real>, minTree: bool, i: int, j: int)
    requires 0 <= i < |buf| && 0 <= j < |buf|
  {
    if minTree then buf[i] < buf[j] else buf[i] > buf[j]
  }

  /** Slot i is at least as good as slot j. */
  predicate AsGood(buf: seq<real>, minTree: bool, i: int, j: int)
    requires 0 <= i < |buf| && 0 <= j < |buf|
  {
    if minTree then buf[i] <= buf[j] else buf[i] >= buf[j]
  }

  /** The parent `updateFrom` computes from two children. */
  function Combine(a: Node, b: Node, buf: seq<real>, minTree: bool): (m: Node)
    requires 0 <= a.first < |buf| && 0 <= b.first < |buf|
    ensures m.second == a.second + b.second
    ensures m.first == a.first || m.first == b.first
  {
    var first :=
      if a.second != 0 && b.second != 0 then (if Prefers(buf, minTree, a.first, b.first) then a.first else b.first)
      else if b.second != 0 then b.first
      else a.first;
    Node(first, a.second + b.second)
  }

  /** The layout: at least 2n - 1 nodes, every pointer names a slot, the leaf
      of slot k points at k and is live (1) or dead (0), and the nodes past
      the last leaf are never live. */
  ghost predicate Shape(h: seq<Node>, n: int) {
    n >= 1 && |h| >= 2 * n - 1 &&
    (forall q :: 0 <= q < |h| ==> 0 <= h[q].first < n) &&
    (forall k :: 0 <= k < n ==> h[Leaf(n, k)].first == k && 0 <= h[Leaf(n, k)].second <= 1) &&
    (forall q :: 2 * n - 1 <= q < |h| ==> h[q].second == 0)
  }

  /** Internal node q holds what `Combine` makes of its children, except
      that the pointer of a node with nothing live below it is free. */
  ghost predicate Good(h: seq<Node>, buf: seq<real>, n: int, minTree: bool, q: int)
    requires Shape(h, n) && |buf| == n && 0 <= q < n - 1
  {
    var m := Combine(h[2 * q + 1], h[2 * q + 2], buf, minTree);
    h[q].second == m.second && (m.second != 0 ==> h[q].first == m.first)
  }

  ghost predicate Sound(h: seq<Node>, buf: seq<real>, n: int, minTree: bool) {
    Shape(h, n) && |buf| == n &&
    forall q :: 0 <= q < n - 1 ==> Good(h, buf, n, minTree, q)
  }

  /** The live slots whose leaves lie below node q. */
  ghost function LiveUnder(h: seq<Node>, n: int, q: int): set<int>
    requires Shape(h, n)
  {
    set k | 0 <= k < n && h[Leaf(n, k)].second != 0 && Under(q, Leaf(n, k))
  }

  /** The live slots of a tree. */
  ghost function Live(h: seq<Node>, n: int): (s: set<int>)
    ensures forall k :: k in s ==> 0 <= k < n
  {
    set k | 0 <= k < n && Leaf(n, k) < |h| && h[Leaf(n, k)].second != 0
  }

  lemma LiveRoot(h: seq<Node>, n: int)
    requires Shape(h, n)
    ensures LiveUnder(h, n, 0) == Live(h, n)
  {
    forall k | 0 <= k < n
      ensures Under(0, Leaf(n, k))
    {
      UnderRoot(Leaf(n, k));
    }
  }

  /** The live slots below an internal node are those below its first
      child and those below its second, and no slot is below both. */
  lemma LiveSplit(h: seq<Node>, n: int, q: int)
    requires Shape(h, n) && 0 <= q < n - 1
    ensures LiveUnder(h, n, q) == LiveUnder(h, n, 2 * q + 1) + LiveUnder(h, n, 2 * q + 2)
    ensures LiveUnder(h, n, 2 * q + 1) !! LiveUnder(h, n, 2 * q + 2)
  {
    forall k | k in LiveUnder(h, n, q)
      ensures k in LiveUnder(h, n, 2 * q + 1) + LiveUnder(h, n, 2 * q + 2)
    {
      UnderSplit(q, Leaf(n, k));
    }
    forall k | k in LiveUnder(h, n, 2 * q + 1) + LiveUnder(h, n, 2 * q + 2)
      ensures k in LiveUnder(h, n, q)
    {
      if k in LiveUnder(h, n, 2 * q + 1) {
        UnderParent(2 * q + 1, Leaf(n, k));
      } else {
        UnderParent(2 * q + 2, Leaf(n, k));
      }
    }
    var left, right := 2 * q + 1, 2 * q + 2;
    forall k | k in LiveUnder(h, n, left)
      ensures k !in LiveUnder(h, n, right)
    {
      UnderSiblings(q, Leaf(n, k));
    }
  }

  /** Below a leaf lies only its own slot, and below a padding node nothing. */
  lemma LeafSummary(h: seq<Node>, n: int, q: int)
    requires Shape(h, n) && n - 1 <= q < |h|
    ensures LiveUnder(h, n, q) == if q < 2 * n - 1 && h[q].second != 0 then {q - (n - 1)} else {}
  {
    forall k | k in LiveUnder(h, n, q)
      ensures q < 2 * n - 1 && k == q - (n - 1)
    {
      if Leaf(n, k) != q {
        UnderBelow(q, Leaf(n, k));
      }
    }
    if q < 2 * n - 1 && h[q].second != 0 {
      assert Leaf(n, q - (n - 1)) == q;
    }
  }

  /** What a sound tree's node q means: its count is the number of live
      slots below it and, when that is not zero, it points at one of them
      that is at least as good as every other. */
  ghost predicate Summarised(h: seq<Node>, buf: seq<real>, n: int, minTree: bool, q: int)
    requires Shape(h, n) && |buf| == n && 0 <= q < |h|
  {
    h[q].second == |LiveUnder(h, n, q)| &&
    (h[q].second != 0 ==>
       h[q].first in LiveUnder(h, n, q) &&
       forall k :: k in LiveUnder(h, n, q) ==> AsGood(buf, minTree, h[q].first, k))
  }

  /** A good internal node over summarised children is summarised. */
  lemma NodeSummary(h: seq<Node>, buf: seq<real>, n: int, minTree: bool, q: int)
    requires Sound(h, buf, n, minTree) && 0 <= q < n - 1
    requires Summarised(h, buf, n, minTree, 2 * q + 1) && Summarised(h, buf, n, minTree, 2 * q + 2)
    ensures Summarised(h, buf, n, minTree, q)
  {
    LiveSplit(h, n, q);
    assert Good(h, buf, n, minTree, q);
  }

  lemma {:induction false} Summary(h: seq<Node>, buf: seq<real>, n: int, minTree: bool, q: int)
    requires Sound(h, buf, n, minTree) && 0 <= q < |h|
    ensures Summarised(h, buf, n, minTree, q)
    decreases |h| - q
  {
    if q >= n - 1 {
      LeafSummary(h, n, q);
    } else {
      Summary(h, buf, n, minTree, 2 * q + 1);
      Summary(h, buf, n, minTree, 2 * q + 2);
      NodeSummary(h, buf, n, minTree, q);
    }
  }

  /** The whole tree: the root counts and points at the best live slot. */
  lemma RootSummary(h: seq<Node>, buf: seq<real>, n: int, minTree: bool)
    requires Sound(h, buf, n, minTree)
    ensures h[0].second == |Live(h, n)|
    ensures h[0].second != 0 ==>
      h[0].first in Live(h, n) && forall k :: k in Live(h, n) ==> AsGood(buf, minTree, h[0].first, k)
  {
    Summary(h, buf, n, minTree, 0);
    LiveRoot(h, n);
  }

  /** A node whose children and own value are as in a sound tree `h0` is
      still good when the buffer has changed only at slots dead in `h0`. */
  lemma Transfer(h0: seq<Node>, buf0: seq<real>, r: seq<Node>, buf: seq<real>, n: int, minTree: bool, q: int)
    requires Sound(h0, buf0, n, minTree) && Shape(r, n) && |buf| == n && 0 <= q < n - 1
    requires r[q] == h0[q] && r[2 * q + 1] == h0[2 * q + 1] && r[2 * q + 2] == h0[2 * q + 2]
    requires forall k :: k in Live(h0, n) ==> buf[k] == buf0[k]
    ensures Good(r, buf, n, minTree, q)
  {
    Summary(h0, buf0, n, minTree, 2 * q + 1);
    Summary(h0, buf0, n, minTree, 2 * q + 2);
    assert Good(h0, buf0, n, minTree, q);
  }

  /** Changing the buffer at slots that are dead in a tree keeps it sound. */
  lemma BufferChange(h: seq<Node>, buf0: seq<real>, buf: seq<real>, n: int, minTree: bool)
    requires Sound(h, buf0, n, minTree) && |buf| == n
    requires forall k :: k in Live(h, n) ==> buf[k] == buf0[k]
    ensures Sound(h, buf, n, minTree)
  {
    forall q | 0 <= q < n - 1
      ensures Good(h, buf, n, minTree, q)
    {
      Transfer(h, buf0, h, buf, n, minTree, q);
    }
  }

  /** The state `updateFrom` starts from: `h0` was sound over `buf0`; since
      then one leaf `pos` has been set live or dead, and the buffer changed
      only at slots that were dead in `h0`. */
  ghost predicate Touched(h0: seq<Node>, buf0: seq<real>, h: seq<Node>, buf: seq<real>, n: int, minTree: bool, pos: int) {
    Sound(h0, buf0, n, minTree) && |buf| == n && n - 1 <= pos < 2 * n - 1 &&
    |h| == |h0| && h[pos].first == h0[pos].first && 0 <= h[pos].second <= 1 &&
    (forall q :: 0 <= q < |h| && q != pos ==> h[q] == h0[q]) &&
    (forall k :: k in Live(h0, n) ==> buf[k] == buf0[k])
  }

  /** When the walk stops at p because p already holds what its children
      give, every node above p is as it was in `h0`, over children as they
      were in `h0`, and so is good. */
  lemma ClimbStops(h0: seq<Node>, buf0: seq<real>, h: seq<Node>, r: seq<Node>, buf: seq<real>,
                   n: int, minTree: bool, pos: int, child: int, p: int)
    requires Touched(h0, buf0, h, buf, n, minTree, pos) && Walk(h, r, buf, n, minTree, pos, child)
    requires child != 0 && p == (child - 1) / 2 && 0 <= p < n - 1
    requires forall q :: 0 <= q < n - 1 && !(q <= p && Under(q, p)) ==> Good(r, buf, n, minTree, q)
    requires r[p] == Combine(r[2 * p + 1], r[2 * p + 2], buf, minTree)
    ensures Sound(r, buf, n, minTree)
  {
    forall q | 0 <= q < n - 1 && q < p && Under(q, p)
      ensures Good(r, buf, n, minTree, q)
    {
      StopNode(h0, buf0, h, r, buf, n, minTree, pos, child, p, q);
    }
  }

  /** A node above the stopping point p still has its children from `h0`. */
  lemma StopNode(h0: seq<Node>, buf0: seq<real>, h: seq<Node>, r: seq<Node>, buf: seq<real>,
                 n: int, minTree: bool, pos: int, child: int, p: int, q: int)
    requires Touched(h0, buf0, h, buf, n, minTree, pos) && Walk(h, r, buf, n, minTree, pos, child)
    requires child != 0 && p == (child - 1) / 2 && 0 <= q < p < n - 1 && Under(q, p)
    ensures Good(r, buf, n, minTree, q)
  {
    UnderParent(child, pos);
    forall c | c == 2 * q + 1 || c == 2 * q + 2
      ensures r[c] == h0[c]
    {
      if p < c && Under(c, pos) {
        UnderChain(p, c, pos);
      }
    }
    Transfer(h0, buf0, r, buf, n, minTree, q);
  }

  /** Before the walk: every node that is not above the leaf is good. */
  lemma ClimbStart(h0: seq<Node>, buf0: seq<real>, h: seq<Node>, buf: seq<real>, n: int, minTree: bool, pos: int)
    requires Touched(h0, buf0, h, buf, n, minTree, pos)
    ensures Shape(h, n)
    ensures forall q :: 0 <= q < n - 1 && !(q < pos && Under(q, pos)) ==> Good(h, buf, n, minTree, q)
  {
    forall q | 0 <= q < n - 1 && !(q < pos && Under(q, pos))
      ensures Good(h, buf, n, minTree, q)
    {
      if 2 * q + 1 == pos || 2 * q + 2 == pos {
        ParentUnder(pos);
      }
      Transfer(h0, buf0, h, buf, n, minTree, q);
    }
  }

  /** One step of the walk, moving from `child` to its parent p: p is on
      the path, inside the tree, and every node that is neither p nor above
      it is good. */
  lemma ClimbStep(r: seq<Node>, buf: seq<real>, n: int, minTree: bool, pos: int, child: int, p: int)
    requires Shape(r, n) && |buf| == n && pos < 2 * n - 1
    requires 0 < child <= pos && Under(child, pos) && p == (child - 1) / 2
    requires forall q :: 0 <= q < n - 1 && !(q < child && Under(q, child)) ==> Good(r, buf, n, minTree, q)
    ensures p < n - 1 && Under(p, pos)
    ensures forall q :: 0 <= q < n - 1 && !(q <= p && Under(q, p)) ==> Good(r, buf, n, minTree, q)
  {
    UnderParent(child, pos);
    UnderBelow(p, pos);
    forall q | 0 <= q < n - 1 && !(q <= p && Under(q, p))
      ensures Good(r, buf, n, minTree, q)
    {
      assert !(q < child && Under(q, child));
    }
  }

  /** Storing at p what its children give makes p good and leaves every
      other node that is not above p good. */
  lemma ClimbStore(r: seq<Node>, buf: seq<real>, n: int, minTree: bool, p: int, parent: Node)
    requires Shape(r, n) && |buf| == n && 0 <= p < n - 1
    requires forall q :: 0 <= q < n - 1 && !(q <= p && Under(q, p)) ==> Good(r, buf, n, minTree, q)
    requires parent == Combine(r[2 * p + 1], r[2 * p + 2], buf, minTree)
    ensures Shape(r[p := parent], n)
    ensures forall q :: 0 <= q < n - 1 && !(q < p && Under(q, p)) ==> Good(r[p := parent], buf, n, minTree, q)
  {
    var r' := r[p := parent];
    assert Shape(r', n) by {
      assert forall k :: 0 <= k < n ==> Leaf(n, k) != p;
    }
    forall q | 0 <= q < n - 1 && !(q < p && Under(q, p))
      ensures Good(r', buf, n, minTree, q)
    {
      StoreNode(r, buf, n, minTree, p, parent, q);
    }
  }

  /** After the store at p, a node q that is not above p is good: p itself
      by construction, any other because it and its children are as before. */
  lemma StoreNode(r: seq<Node>, buf: seq<real>, n: int, minTree: bool, p: int, parent: Node, q: int)
    requires Shape(r, n) && |buf| == n && 0 <= p < n - 1 && Shape(r[p := parent], n)
    requires 0 <= q < n - 1 && !(q < p && Under(q, p)) && (q != p ==> Good(r, buf, n, minTree, q))
    requires parent == Combine(r[2 * p + 1], r[2 * p + 2], buf, minTree)
    ensures Good(r[p := parent], buf, n, minTree, q)
  {
    var r' := r[p := parent];
    if p >= 1 {
      ParentUnder(p);
    }
    assert r'[2 * q + 1] == r[2 * q + 1] && r'[2 * q + 2] == r[2 * q + 2];
    if q != p {
      SameNode(r, r', buf, n, minTree, q);
    }
  }

  /** A node whose value and children are unchanged keeps being good. */
  lemma SameNode(r: seq<Node>, r': seq<Node>, buf: seq<real>, n: int, minTree: bool, q: int)
    requires Shape(r, n) && Shape(r', n) && |buf| == n && 0 <= q < n - 1
    requires r'[q] == r[q] && r'[2 * q + 1] == r[2 * q + 1] && r'[2 * q + 2] == r[2 * q + 2]
    requires Good(r, buf, n, minTree, q)
    ensures Good(r', buf, n, minTree, q)
  {
  }

  /** Where the walk from leaf `pos` stands at node p: p is on the path,
      only the path nodes from p up to (not including) `pos` may differ from
      `h`, and every node that is not above p is good. */
  ghost predicate Walk(h: seq<Node>, r: seq<Node>, buf: seq<real>, n: int, minTree: bool, pos: int, p: int) {
    0 <= p <= pos < 2 * n - 1 && Under(p, pos) &&
    Shape(r, n) && |buf| == n && |r| == |h| &&
    (forall q :: 0 <= q < |r| && !(p <= q < pos && Under(q, pos)) ==> r[q] == h[q]) &&
    (forall q :: 0 <= q < n - 1 && !(q < p && Under(q, p)) ==> Good(r, buf, n, minTree, q))
  }

  lemma WalkStart(h0: seq<Node>, buf0: seq<real>, h: seq<Node>, buf: seq<real>, n: int, minTree: bool, pos: int)
    requires Touched(h0, buf0, h, buf, n, minTree, pos)
    ensures Walk(h, h, buf, n, minTree, pos, pos)
  {
    ClimbStart(h0, buf0, h, buf, n, minTree, pos);
  }

  /** Moving to the parent p of `child`: p is an internal node on the path,
      and storing what p's children give moves the walk to p. */
  lemma WalkUp(h: seq<Node>, r: seq<Node>, buf: seq<real>, n: int, minTree: bool, pos: int, child: int, p: int)
    requires Walk(h, r, buf, n, minTree, pos, child) && child != 0 && p == (child - 1) / 2
    ensures 0 <= p < n - 1
    ensures forall q :: 0 <= q < n - 1 && !(q <= p && Under(q, p)) ==> Good(r, buf, n, minTree, q)
    ensures Walk(h, r[p := Combine(r[2 * p + 1], r[2 * p + 2], buf, minTree)], buf, n, minTree, pos, p)
  {
    ClimbStep(r, buf, n, minTree, pos, child, p);
    var parent := Combine(r[2 * p + 1], r[2 * p + 2], buf, minTree);
    ClimbStore(r, buf, n, minTree, p, parent);
    var r' := r[p := parent];
    forall q | 0 <= q < |r'| && !(p <= q < pos && Under(q, pos))
      ensures r'[q] == h[q]
    {
      assert !(child <= q < pos && Under(q, pos));
    }
    assert 0 <= p <= pos < 2 * n - 1;
    assert Under(p, pos);
    assert Shape(r', n) && |buf| == n && |r'| == |h|;
    assert forall q :: 0 <= q < n - 1 && !(q < p && Under(q, p)) ==> Good(r', buf, n, minTree, q);
  }

  /** The leaves are never on the part of the path the walk rewrites. */
  lemma WalkLeaves(h: seq<Node>, r: seq<Node>, buf: seq<real>, n: int, minTree: bool, pos: int, p: int)
    requires Walk(h, r, buf, n, minTree, pos, p)
    ensures forall k :: 0 <= k < n ==> r[Leaf(n, k)] == h[Leaf(n, k)]
  {
    forall k | 0 <= k < n
      ensures r[Leaf(n, k)] == h[Leaf(n, k)]
    {
      if p <= Leaf(n, k) < pos && Under(Leaf(n, k), pos) {
        UnderBelow(Leaf(n, k), pos);
      }
    }
  }

  /** At the root every node is good. */
  lemma WalkRoot(h: seq<Node>, r: seq<Node>, buf: seq<real>, n: int, minTree: bool, pos: int)
    requires Walk(h, r, buf, n, minTree, pos, 0)
    ensures Sound(r, buf, n, minTree)
    ensures forall k :: 0 <= k < n ==> r[Leaf(n, k)] == h[Leaf(n, k)]
  {
    WalkLeaves(h, r, buf, n, minTree, pos, 0);
  }

  /** `updateFrom(pos)` for one tree: walk from the leaf to the root,
      recomputing each parent from its children, and stop early at the first
      parent that already holds what its children give. */
  method Climb(h: seq<Node>, buf: seq<real>, n: int, minTree: bool, pos: int, ghost h0: seq<Node>, ghost buf0: seq<real>)
    returns (r: seq<Node>)
    requires Touched(h0, buf0, h, buf, n, minTree, pos)
    ensures Sound(r, buf, n, minTree) && |r| == |h|
    ensures forall k :: 0 <= k < n ==> r[Leaf(n, k)] == h[Leaf(n, k)]
  {
    r := h;
    WalkStart(h0, buf0, h, buf, n, minTree, pos);
    var p := pos;
    while p != 0
      invariant Walk(h, r, buf, n, minTree, pos, p)
    {
      ghost var child := p;
      p := (p - 1) / 2;
      WalkUp(h, r, buf, n, minTree, pos, child, p);
      var parent := Combine(r[2 * p + 1], r[2 * p + 2], buf, minTree);
      if r[p] == parent {
        ClimbStops(h0, buf0, h, r, buf, n, minTree, pos, child, p);
        WalkLeaves(h, r, buf, n, minTree, pos, child);
        return;
      }
      r := r[p := parent];
    }
    WalkRoot(h, r, buf, n, minTree, pos);
  }

  /** Setting the leaf of slot k live or dead adds k to or takes it out of
      the tree's live slots. */
  lemma SetLeaf(h: seq<Node>, n: int, k: int, live: int)
    requires Shape(h, n) && 0 <= k < n && 0 <= live <= 1
    ensures Shape(h[Leaf(n, k) := Node(k, live)], n)
    ensures Live(h[Leaf(n, k) := Node(k, live)], n) == if live != 0 then Live(h, n) + {k} else Live(h, n) - {k}
  {
    var h' := h[Leaf(n, k) := Node(k, live)];
    assert forall j :: 0 <= j < n && j != k ==> Leaf(n, j) != Leaf(n, k);
    assert Shape(h', n);
  }

  /** Trees with the same leaves have the same live slots. */
  lemma SameLeaves(h: seq<Node>, h': seq<Node>, n: int)
    requires Shape(h, n) && Shape(h', n)
    requires forall k :: 0 <= k < n ==> h'[Leaf(n, k)] == h[Leaf(n, k)]
    ensures Live(h', n) == Live(h, n)
  {
  }

  /** The number of nodes of a complete binary tree: 1, 3, 7, 15, ... */
  predicate Full(m: int)
    decreases m
  {
    m == 1 || (m > 1 && m % 2 == 1 && Full((m - 1) / 2))
  }

  /** The two trees of a window over `buf`: both sound, of one size, and no
      slot live in both. */
  ghost predicate Pair(buf: seq<real>, minHeap: seq<Node>, maxHeap: seq<Node>) {
    Sound(minHeap, buf, |buf|, true) && Sound(maxHeap, buf, |buf|, false) &&
    |minHeap| == |maxHeap| &&
    Live(minHeap, |buf|) !! Live(maxHeap, |buf|)
  }

  /** A tree with nothing live and every leaf pointing at its slot is sound,
      whatever the buffer holds. */
  lemma DeadTree(h: seq<Node>, buf: seq<real>, n: int, minTree: bool)
    requires n >= 1 && |h| >= 2 * n - 1 && |buf| == n
    requires forall q :: 0 <= q < |h| ==> h[q].second == 0 && 0 <= h[q].first < n
    requires forall k :: 0 <= k < n ==> h[Leaf(n, k)].first == k
    ensures Sound(h, buf, n, minTree) && Live(h, n) == {}
  {
  }

  /** Changing the buffer at a slot dead in both trees keeps the pair sound. */
  lemma PairBufferChange(buf0: seq<real>, minHeap: seq<Node>, maxHeap: seq<Node>, key: int, val: real)
    requires Pair(buf0, minHeap, maxHeap) && 0 <= key < |buf0|
    requires key !in Live(minHeap, |buf0|) + Live(maxHeap, |buf0|)
    ensures Pair(buf0[key := val], minHeap, maxHeap)
  {
    var buf := buf0[key := val];
    BufferChange(minHeap, buf0, buf, |buf|, true);
    BufferChange(maxHeap, buf0, buf, |buf|, false);
  }
}
