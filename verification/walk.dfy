/** The walks over an AVL tree that change nothing: order statistics by cached counts (`Offset`,
    `Rank`) and in-order neighbours (shared/src/MRD_avl.cpp:73-146). */
module Walk {
  import opened Sequences
  import opened Shape
  import opened Avl

  /** The position in order of the node on top of `t`, when `t` hangs at `c`. */
  ghost function Index<N>(c: Ctx<N>, t: Tree<N>): nat
    requires t.Node?
  {
    |Pre(c)| + Count(t.left)
  }

  lemma AtIndex<N>(c: Ctx<N>, t: Tree<N>)
    requires t.Node?
    ensures Index(c, t) < |InOrder(Plug(c, t))|
    ensures InOrder(Plug(c, t))[Index(c, t)] == t.node
    ensures |InOrder(Plug(c, t))| == |Pre(c)| + Count(t) + |Post(c)|
  {
    PlugInOrder(c, t);
    CountIsLength(t.left);
    CountIsLength(t.right);
    ConcatOut(Pre(c), InOrder(t.left), t.node, InOrder(t.right), Post(c));
  }

  lemma {:induction false} PathIsShort<N>(c: Ctx<N>, t: Tree<N>)
    ensures Depth(c) + Height(t) <= Height(Plug(c, t))
    decreases c
  {
    if !c.Top? {
      PathIsShort(c.up, OneUp(c, t));
    }
  }

  /** A subtree on the heap, with the path above it. */
  ghost predicate At(c: Ctx<ZNode>, t: Tree<ZNode>)
    reads CtxNodes(c), Nodes(t)
  {
    && t.Node? && RepCtx(c, t, true) && Rep(t, Up(c))
    && Distinct(t) && CtxDistinct(c) && CtxNodes(c) !! Nodes(t)
  }

  lemma AtFromRep(c: Ctx<ZNode>, t: Tree<ZNode>)
    requires t.Node? && Rep(Plug(c, t), null) && Distinct(Plug(c, t))
    ensures At(c, t)
  {
    Focus(c, t);
    PlugDistinct(c, t);
  }

  lemma AtUp(c: Ctx<ZNode>, t: Tree<ZNode>)
    requires At(c, t) && !c.Top?
    ensures At(c.up, OneUp(c, t)) && Plug(c.up, OneUp(c, t)) == Plug(c, t)
    ensures c.InLeft? ==> c.node.left == t.node != c.node.right
    ensures c.InRight? ==> c.node.right == t.node != c.node.left
  {
    PlugDistinct(c, t);
    PlugDistinct(c.up, OneUp(c, t));
    if c.InLeft? && c.right.Node? {
      Nearby(c.right);
    } else if c.InRight? && c.left.Node? {
      Nearby(c.left);
    }
  }

  /** The links of a node, and where they lead. */
  lemma AtLinks(c: Ctx<ZNode>, t: Tree<ZNode>)
    requires At(c, t)
    ensures t.Node? && t.node.parent == (if c.Top? then null else c.node)
    ensures t.node.left == (if t.left.Leaf? then null else t.left.node)
    ensures t.node.right == (if t.right.Leaf? then null else t.right.node)
  {
  }

  lemma Counted(c: Ctx<ZNode>, t: Tree<ZNode>)
    requires At(c, t)
    ensures Cnt(t.node.left) == Count(t.left) && Cnt(t.node.right) == Count(t.right)
  {
    assert Rep(t.left, t.node) && Rep(t.right, t.node);
  }

  lemma AtDown(c: Ctx<ZNode>, t: Tree<ZNode>)
    requires At(c, t)
    ensures t.left.Node? ==> At(InLeft(c, t.node, t.right), t.left) && Cnt(t.left.node.right) == Count(t.left.right)
    ensures t.right.Node? ==> At(InRight(c, t.left, t.node), t.right) && Cnt(t.right.node.left) == Count(t.right.left)
  {
    if t.left.Node? {
      Counted(InLeft(c, t.node, t.right), t.left);
    }
    if t.right.Node? {
      Counted(InRight(c, t.left, t.node), t.right);
    }
  }

  // ---------------------------------------------------------------- offset

  /** The position `i` of the order lies in the subtree `t` that hangs at `c`. */
  ghost predicate Covers<N>(c: Ctx<N>, t: Tree<N>, i: int) {
    |Pre(c)| <= i < |Pre(c)| + Count(t)
  }

  /** Steps that may still be needed: down from here if the goal is below, else up first. */
  ghost function Fuel<N>(c: Ctx<N>, t: Tree<N>, i: int): nat {
    if Covers(c, t, i) then Height(t) else Depth(c) + Height(Plug(c, t))
  }

  /** Where the children and the parent stand relative to a node. */
  lemma Neighbours<N>(c: Ctx<N>, t: Tree<N>)
    requires t.Node?
    ensures t.left.Node? ==> Index(InLeft(c, t.node, t.right), t.left) == Index(c, t) - Count(t.left.right) - 1
    ensures t.right.Node? ==> Index(InRight(c, t.left, t.node), t.right) == Index(c, t) + Count(t.right.left) + 1
    ensures c.InLeft? ==> Index(c.up, OneUp(c, t)) == Index(c, t) + Count(t.right) + 1
    ensures c.InRight? ==> Index(c.up, OneUp(c, t)) == Index(c, t) - Count(t.left) - 1
    ensures t.right.Node? ==> |Pre(InRight(c, t.left, t.node))| == Index(c, t) + 1
  {
    CountIsLength(t.left);
    if c.InRight? {
      CountIsLength(c.left);
    }
  }

  /** A goal below is kept below by going towards it; a goal that is not below needs the parent. */
  lemma FuelBurns<N>(c: Ctx<N>, t: Tree<N>, i: int)
    requires t.Node? && i != Index(c, t)
    ensures Index(c, t) < i <= Index(c, t) + Count(t.right) ==>
              t.right.Node? && Fuel(InRight(c, t.left, t.node), t.right, i) < Fuel(c, t, i)
    ensures Index(c, t) - Count(t.left) <= i < Index(c, t) ==>
              t.left.Node? && Fuel(InLeft(c, t.node, t.right), t.left, i) < Fuel(c, t, i)
    ensures Covers(c, t, i) <==> Index(c, t) - Count(t.left) <= i <= Index(c, t) + Count(t.right)
    ensures !Covers(c, t, i) && !c.Top? ==> Fuel(c.up, OneUp(c, t), i) < Fuel(c, t, i)
  {
    Neighbours(c, t);
    if !c.Top? {
      PathIsShort(c.up, OneUp(c, t));
    }
  }

  lemma HasNodes<N>(t: Tree<N>)
    ensures t.Node? <==> Count(t) > 0
    ensures t.Node? ==> Count(t) == 1 + Count(t.left) + Count(t.right)
  {
  }

  lemma FuelBound<N>(c: Ctx<N>, t: Tree<N>, i: int)
    ensures Fuel(c, t, i) <= 2 * Height(Plug(c, t))
  {
    PathIsShort(c, t);
  }

  /** With nothing above it a subtree is the whole tree; and going down or up does not change that. */
  lemma SameWhole<N>(c: Ctx<N>, t: Tree<N>)
    requires t.Node?
    ensures c.Top? ==> |InOrder(Plug(c, t))| == Count(t) && Index(c, t) == Count(t.left)
    ensures Plug(InLeft(c, t.node, t.right), t.left) == Plug(c, t)
    ensures Plug(InRight(c, t.left, t.node), t.right) == Plug(c, t)
    ensures !c.Top? ==> OneUp(c, t).Node? && OneUp(c, t).node == c.node
  {
    AtIndex(c, t);
  }

  method Offset(start: ZNode, offset: int, ghost c0: Ctx<ZNode>, ghost t0: Tree<ZNode>)
    returns (r: ZNode?, ghost steps: nat)
    requires t0.Node? && t0.node == start && Rep(Plug(c0, t0), null) && Distinct(Plug(c0, t0))
    ensures var s, i := InOrder(Plug(c0, t0)), Index(c0, t0) + offset;
            if 0 <= i < |s| then r == s[i] else r == null
    ensures steps <= 2 * Height(Plug(c0, t0))
  {
    hide *;
    var node := start;
    var pos := 0;
    ghost var c, t, goal := c0, t0, Index(c0, t0) + offset;
    steps := 0;
    AtFromRep(c, t);
    FuelBound(c, t, goal);
    while pos != offset
      invariant t.Node? && At(c, t) && t.node == node && Plug(c, t) == Plug(c0, t0)
      invariant Index(c, t) == Index(c0, t0) + pos
      invariant steps + Fuel(c, t, goal) <= 2 * Height(Plug(c0, t0))
      decreases Fuel(c, t, goal)
    {
      AtLinks(c, t);
      Neighbours(c, t);
      FuelBurns(c, t, goal);
      Counted(c, t);
      AtDown(c, t);
      HasNodes(t);
      HasNodes(t.left);
      HasNodes(t.right);
      SameWhole(c, t);
      if pos < offset && pos + Cnt(node.right) >= offset {
        node := node.right;
        pos := pos + Cnt(node.left) + 1;
        c, t := InRight(c, t.left, t.node), t.right;
      } else if pos > offset && pos - Cnt(node.left) <= offset {
        node := node.left;
        pos := pos - (Cnt(node.right) + 1);
        c, t := InLeft(c, t.node, t.right), t.left;
      } else {
        var parent := node.parent;
        if parent == null {
          AtIndex(c, t);
          return null, steps;
        }
        AtUp(c, t);
        if parent.right == node {
          pos := pos - (Cnt(node.left) + 1);
        } else {
          pos := pos + (Cnt(node.right) + 1);
        }
        node := parent;
        c, t := c.up, OneUp(c, t);
      }
      steps := steps + 1;
    }
    AtIndex(c, t);
    r := node;
  }

  // ---------------------------------------------------------------- rank

  /** The path above the maximal run of right-child links that starts at the hole. */
  ghost function RunCtx<N>(c: Ctx<N>): Ctx<N> {
    if c.InRight? then RunCtx(c.up) else c
  }

  /** The subtree on top of that run. */
  ghost function RunTop<N>(c: Ctx<N>, t: Tree<N>): Tree<N>
    decreases c
  {
    if c.InRight? then RunTop(c.up, OneUp(c, t)) else t
  }

  /** Every edge of the path is a left-child link. */
  ghost predicate AllLeft<N>(c: Ctx<N>) {
    c.Top? || (c.InLeft? && AllLeft(c.up))
  }

  lemma {:induction false} RunSplits<N>(c: Ctx<N>, t: Tree<N>) returns (run: seq<N>)
    requires t.Node?
    ensures Plug(RunCtx(c), RunTop(c, t)) == Plug(c, t)
    ensures Pre(c) == Pre(RunCtx(c)) + run && InOrder(RunTop(c, t)) == run + InOrder(t)
    decreases c
  {
    if c.InRight? {
      var above := RunSplits(c.up, OneUp(c, t));
      run := above + (InOrder(c.left) + [c.node]);
      assert Pre(c) == Pre(c.up) + (InOrder(c.left) + [c.node]);
      assert InOrder(OneUp(c, t)) == (InOrder(c.left) + [c.node]) + InOrder(t);
    } else {
      run := [];
    }
  }

  lemma {:induction false} AllLeftIsFirst<N>(c: Ctx<N>)
    ensures AllLeft(c) <==> Pre(c) == []
    decreases c
  {
    match c
    case Top =>
    case InLeft(up, n, r) => AllLeftIsFirst(up);
    case InRight(up, l, n) => assert n in Pre(c);
  }

  lemma IndexIs<N>(c: Ctx<N>, t: Tree<N>)
    requires t.Node?
    ensures Index(c, t) == |Pre(c)| + Count(t.left)
  {
  }

  /** What the climb of `Rank` computes. It counts positions inside the subtree on top of the run of
      right-child links it climbs, and is the position in the whole tree exactly when that subtree
      holds the first node of all. */
  lemma RankMeaning<N>(c: Ctx<N>, t: Tree<N>, rank: int)
    requires t.Node? && rank == Index(c, t) + 1 - |Pre(RunCtx(c))|
    ensures 1 <= rank <= |InOrder(RunTop(c, t))| && InOrder(RunTop(c, t))[rank - 1] == t.node
    ensures rank <= Index(c, t) + 1
    ensures rank == Index(c, t) + 1 <==> AllLeft(RunCtx(c))
  {
    hide *;
    var run := RunSplits(c, t);
    AllLeftIsFirst(RunCtx(c));
    CountIsLength(t.left);
    IndexIs(c, t);
    InOrderOf(t.left, t.node, t.right);
    var top := RunTop(c, t);
    assert InOrder(top) == (run + InOrder(t.left)) + [t.node] + InOrder(t.right);
  }

  method Rank(start: ZNode, ghost c0: Ctx<ZNode>, ghost t0: Tree<ZNode>) returns (rank: int)
    requires t0.Node? && t0.node == start && Rep(Plug(c0, t0), null) && Distinct(Plug(c0, t0))
    ensures rank == Index(c0, t0) + 1 - |Pre(RunCtx(c0))|
    ensures 1 <= rank <= Index(c0, t0) + 1
    ensures rank == Index(c0, t0) + 1 <==> AllLeft(RunCtx(c0))
  {
    var node := start;
    rank := 1;
    AtFromRep(c0, t0);
    Counted(c0, t0);
    if node.left != null {
      rank := rank + Cnt(node.left);
    }
    ghost var c, t := c0, t0;
    var parent := node.parent;
    while parent != null && parent.right == node
      invariant At(c, t) && t.node == node && parent == node.parent
      invariant rank == Index(c0, t0) + 1 - |Pre(c)|
      invariant RunCtx(c) == RunCtx(c0)
      decreases c
    {
      AtUp(c, t);
      Counted(c.up, OneUp(c, t));
      CountIsLength(c.left);
      rank := rank + Cnt(parent.left) + 1;
      node := parent;
      parent := node.parent;
      c, t := c.up, OneUp(c, t);
    }
    if parent != null {
      AtUp(c, t);
    }
    RankMeaning(c0, t0, rank);
  }

  /** A balanced tree in which the climb stops too early: the third node gets rank 1. */
  lemma RankIsNotGlobal<N>(a: N, m: N, b: N, z: N)
    ensures var c := InLeft(InRight(Top, Node(Leaf, a, Leaf), m), z, Leaf);
            var t := Node(Leaf, b, Leaf);
            && Balanced(Plug(c, t))
            && InOrder(Plug(c, t)) == [a, m, b, z]
            && Index(c, t) + 1 == 3
            && Index(c, t) + 1 - |Pre(RunCtx(c))| == 1
  {
    var at, t := Node(Leaf, a, Leaf), Node(Leaf, b, Leaf);
    var c1 := InRight(Top, at, m);
    var c := InLeft(c1, z, Leaf);
    var zt := Node(t, z, Leaf);
    assert InOrder(at) == [a] && InOrder(t) == [b] && InOrder(zt) == [b, z];
    assert Plug(c, t) == Plug(c1, zt) == Node(at, m, zt);
    assert Height(at) == 1 && Height(t) == 1 && Height(zt) == 2;
    assert Balanced(at) && Balanced(t) && Balanced(zt);
    assert Pre(c) == Pre(c1) == [a, m];
  }

  // ---------------------------------------------------------------- neighbours in order

  /** The climb of lines 81-86: up to the first ancestor whose left subtree holds `start`. */
  lemma PreUp<N>(c: Ctx<N>, t: Tree<N>)
    requires t.Node?
    ensures Index(c, t) == |Pre(c)| + Count(t.left)
    ensures c.Top? ==> |Pre(c)| == 0 && |Post(c)| == 0
    ensures c.InLeft? ==> Pre(c.up) == Pre(c) && Count(OneUp(c, t)) == Count(t) + 1 + Count(c.right)
                          && Index(c.up, OneUp(c, t)) == |Pre(c)| + Count(t)
    ensures c.InRight? ==> |Pre(c)| == |Pre(c.up)| + Count(c.left) + 1
                           && Count(OneUp(c, t)) == Count(c.left) + 1 + Count(t)
  {
    if c.InRight? {
      CountIsLength(c.left);
    }
  }

  method ClimbFromLeft(start: ZNode, ghost c0: Ctx<ZNode>, ghost t0: Tree<ZNode>) returns (r: ZNode?)
    requires At(c0, t0) && t0.node == start && t0.right.Leaf?
    ensures var s, i := InOrder(Plug(c0, t0)), Index(c0, t0) + 1;
            if i < |s| then r == s[i] else r == null
  {
    hide *;
    var node: ZNode := start;
    AtLinks(c0, t0);
    HasNodes(t0);
    HasNodes(t0.right);
    IndexIs(c0, t0);
    ghost var c, t := c0, t0;
    while node.parent != null
      invariant t.Node? && At(c, t) && t.node == node && Plug(c, t) == Plug(c0, t0)
      invariant |Pre(c)| + Count(t) == Index(c0, t0) + 1
      decreases c
    {
      var parent := node.parent;
      AtLinks(c, t);
      AtUp(c, t);
      Neighbours(c, t);
      SameWhole(c, t);
      PreUp(c, t);
      if node == parent.left {
        AtIndex(c.up, OneUp(c, t));
        return parent;
      }
      node := parent;
      c, t := c.up, OneUp(c, t);
    }
    AtLinks(c, t);
    PreUp(c, t);
    AtIndex(c, t);
    return null;
  }

  method Successor(start: ZNode, ghost c0: Ctx<ZNode>, ghost t0: Tree<ZNode>) returns (r: ZNode?)
    requires t0.Node? && t0.node == start && Rep(Plug(c0, t0), null) && Distinct(Plug(c0, t0))
    ensures var s, i := InOrder(Plug(c0, t0)), Index(c0, t0) + 1;
            if i < |s| then r == s[i] else r == null
  {
    AtFromRep(c0, t0);
    if start.right == null {
      r := ClimbFromLeft(start, c0, t0);
      return;
    }
    ghost var below := InRight(c0, t0.left, t0.node);
    Neighbours(c0, t0);
    LeftSpinePlug(below, t0.right);
    AtIndex(LeftSpine(below, t0.right), Leftmost(t0.right));
    ghost var v;
    r, v := FindLeftmost(start.right, below, t0.right);
  }

  method FindRightmost(start: ZNode, ghost c0: Ctx<ZNode>, ghost t0: Tree<ZNode>)
    returns (ghost c: Ctx<ZNode>, ghost t: Tree<ZNode>, node: ZNode)
    requires t0.Node? && t0.node == start && Rep(t0, Up(c0))
    ensures t.Node? && t.node == node && t.right.Leaf? && Plug(c, t) == Plug(c0, t0)
    ensures Index(c, t) + 1 == |Pre(c0)| + Count(t0)
  {
    node, c, t := start, c0, t0;
    while node.right != null
      invariant t.Node? && t.node == node && Rep(t, Up(c)) && Plug(c, t) == Plug(c0, t0)
      invariant |Pre(c)| + Count(t) == |Pre(c0)| + Count(t0)
      decreases t
    {
      Neighbours(c, t);
      node := node.right;
      c, t := InRight(c, t.left, t.node), t.right;
    }
  }

  method Predecessor(start: ZNode, ghost c0: Ctx<ZNode>, ghost t0: Tree<ZNode>) returns (r: ZNode?)
    requires t0.Node? && t0.node == start && Rep(Plug(c0, t0), null) && Distinct(Plug(c0, t0))
    ensures var s, i := InOrder(Plug(c0, t0)), Index(c0, t0) - 1;
            if 0 <= i then i < |s| && r == s[i] else r == null
  {
    hide InOrder;
    hide CtxDistinct;
    hide Distinct;
    var node: ZNode := start;
    ghost var c, t := c0, t0;
    AtFromRep(c, t);
    AtIndex(c, t);
    if node.left != null {
      ghost var below := InLeft(c, t.node, t.right);
      var c1, v, greatest := FindRightmost(node.left, below, t.left);
      AtIndex(c1, v);
      return greatest;
    }
    while node.parent != null
      invariant At(c, t) && t.node == node && Plug(c, t) == Plug(c0, t0)
      invariant |Pre(c)| == Index(c0, t0)
      decreases c
    {
      var parent := node.parent;
      AtUp(c, t);
      Neighbours(c, t);
      if node == parent.right {
        AtIndex(c.up, OneUp(c, t));
        CountIsLength(c.left);
        return parent;
      }
      node := parent;
      c, t := c.up, OneUp(c, t);
    }
    return null;
  }

  // ---------------------------------------------------------------- logarithmic height

  function Fib(n: nat): nat {
    if n < 2 then n else Fib(n - 1) + Fib(n - 2)
  }

  /** A balanced tree of height `h` has at least fib(h + 2) - 1 nodes. */
  lemma {:induction false} BalancedIsFull<N>(t: Tree<N>)
    requires Balanced(t)
    ensures Count(t) >= Fib(Height(t) + 2) - 1
  {
    if t.Node? {
      BalancedIsFull(t.left);
      BalancedIsFull(t.right);
      if Height(t.left) < Height(t.right) {
        FullHalves(Height(t.right), Height(t.left));
      } else {
        FullHalves(Height(t.left), Height(t.right));
      }
    }
  }

  lemma FullHalves(large: nat, small: nat)
    requires small <= large <= small + 1
    ensures Fib(large + 3) <= Fib(large + 2) + Fib(small + 2)
  {
    FibMonotone(large + 1);
  }

  lemma {:induction false} FibExponential(n: nat)
    ensures Pow2(n / 2) <= Fib(n + 2)
  {
    if n >= 2 {
      FibExponential(n - 2);
      FibMonotone(n);
    }
  }

  lemma FibMonotone(n: nat)
    ensures n >= 1 ==> Fib(n + 1) >= Fib(n)
  {
  }

  /** Twice as many nodes are needed for every two levels: the loops that walk one path from the
      root take at most twice the logarithm of the element count. */
  lemma {:induction false} LogarithmicHeight<N>(t: Tree<N>)
    requires Balanced(t)
    ensures Pow2(Height(t) / 2) <= Count(t) + 1
  {
    BalancedIsFull(t);
    FibExponential(Height(t));
  }
}
