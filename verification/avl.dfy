/** The intrusive AVL tree of shared/src/MRD_avl.cpp, in place.

    A `ZNode` is the struct that embeds the tree node (shared/include/MRD_zset.h); the source's
    container_of between the two is the identity here. `Rep(t, p)` says that the heap below a link
    is exactly the tree `t`, with parent pointers and cached heights and counts exact; `RepCtx`
    says the same about the path above a position. Each operation is tied to a function of
    tree.dfy, which receives the shape as a ghost argument. */
module Avl {
  import opened Bytes
  import opened Shape

  class ZNode {
    var parent: ZNode?
    var left: ZNode?
    var right: ZNode?
    var height: nat
    var count: nat
    var score: real
    const name: Str

    constructor (name: Str, score: real)
      ensures this.name == name && this.score == score
      ensures parent == left == right == null && height == count == 1
    {
      this.name, this.score := name, score;
      parent, left, right := null, null, null;
      height, count := 1, 1;
    }
  }

  ghost function Root(t: Tree<ZNode>): ZNode? {
    if t.Leaf? then null else t.node
  }

  /** The node that the hole of a context hangs from. */
  ghost function Up(c: Ctx<ZNode>): ZNode? {
    if c.Top? then null else c.node
  }

  ghost predicate Rep(t: Tree<ZNode>, p: ZNode?)
    reads Nodes(t)
  {
    t.Node? ==>
      && t.node.parent == p
      && t.node.left == Root(t.left) && t.node.right == Root(t.right)
      && t.node.height == Height(t) && t.node.count == Count(t)
      && Rep(t.left, t.node) && Rep(t.right, t.node)
  }

  /** The path above a hole filled by `t`. With `exact`, the heights and counts cached along the
      path are those of the whole tree; without it they may be stale. */
  ghost predicate RepCtx(c: Ctx<ZNode>, t: Tree<ZNode>, exact: bool)
    reads CtxNodes(c)
    decreases c
  {
    match c
    case Top => true
    case InLeft(up, n, r) =>
      && n.parent == Up(up) && n.left == Root(t) && n.right == Root(r)
      && (exact ==> n.height == Height(Node(t, n, r)) && n.count == Count(Node(t, n, r)))
      && Rep(r, n) && RepCtx(up, Node(t, n, r), exact)
    case InRight(up, l, n) =>
      && n.parent == Up(up) && n.left == Root(l) && n.right == Root(t)
      && (exact ==> n.height == Height(Node(l, n, t)) && n.count == Count(Node(l, n, t)))
      && Rep(l, n) && RepCtx(up, Node(l, n, t), exact)
  }

  /** A tree on the heap may be read as any of its subtrees together with the path above it. */
  lemma {:induction false} Focus(c: Ctx<ZNode>, t: Tree<ZNode>)
    ensures Rep(Plug(c, t), null) <==> RepCtx(c, t, true) && Rep(t, Up(c))
    decreases c
  {
    match c
    case Top =>
    case InLeft(up, n, r) => Focus(up, Node(t, n, r));
    case InRight(up, l, n) => Focus(up, Node(l, n, t));
  }

  /** What the path sees of the subtree in its hole: the root, and for exact caches its size. */
  lemma {:induction false} Refill(c: Ctx<ZNode>, t: Tree<ZNode>, t': Tree<ZNode>, exact: bool)
    requires RepCtx(c, t, true) || (!exact && RepCtx(c, t, false))
    requires Root(t) == Root(t')
    requires exact ==> Height(t) == Height(t') && Count(t) == Count(t')
    ensures RepCtx(c, t', exact)
    decreases c
  {
    match c
    case Top =>
    case InLeft(up, n, r) => Refill(up, Node(t, n, r), Node(t', n, r), exact);
    case InRight(up, l, n) => Refill(up, Node(l, n, t), Node(l, n, t'), exact);
  }

  /** The nodes of a tree, being objects, are allocated: what calls leave alone they leave alone here. */
  lemma {:induction false} Allocated(t: Tree<ZNode>)
    ensures forall n :: n in Nodes(t) ==> allocated(n)
  {
    if t.Node? {
      Allocated(t.left);
      Allocated(t.right);
    }
  }

  lemma {:induction false} CtxAllocated(c: Ctx<ZNode>)
    ensures forall n :: n in CtxNodes(c) ==> allocated(n)
  {
    match c
    case Top =>
    case InLeft(up, n, r) =>
      CtxAllocated(up);
      Allocated(r);
    case InRight(up, l, n) =>
      CtxAllocated(up);
      Allocated(l);
  }

  // ---------------------------------------------------------------- one node

  function H(node: ZNode?): nat
    reads node
  {
    if node == null then 0 else node.height
  }

  function Cnt(node: ZNode?): nat
    reads node
  {
    if node == null then 0 else node.count
  }

  method Update(node: ZNode, ghost l: Tree<ZNode>, ghost r: Tree<ZNode>)
    requires Distinct(Node(l, node, r))
    requires node.left == Root(l) && node.right == Root(r) && Rep(l, node) && Rep(r, node)
    modifies node`height, node`count
    ensures Rep(Node(l, node, r), node.parent)
  {
    node.height := Max(H(node.left), H(node.right)) + 1;
    node.count := 1 + Cnt(node.left) + Cnt(node.right);
  }

  /** Hangs a subtree under another parent. */
  method Adopt(child: ZNode?, parent: ZNode?, ghost t: Tree<ZNode>, ghost p: ZNode?)
    requires child == Root(t) && Rep(t, p) && Distinct(t)
    modifies (if t.Node? then {t.node} else {})`parent
    ensures Rep(t, parent)
  {
    Allocated(t);
    if child != null {
      child.parent := parent;
      assert Rep(t.left, t.node) && Rep(t.right, t.node);
    }
  }

  /** The parts of a tree with a right child are apart from each other. */
  lemma RightHeavy(a: Tree<ZNode>, x: ZNode, b: Tree<ZNode>, y: ZNode, c: Tree<ZNode>)
    requires Distinct(Node(a, x, Node(b, y, c)))
    ensures x != y && {x, y} !! Nodes(a) && {x, y} !! Nodes(b) && {x, y} !! Nodes(c)
    ensures Nodes(a) !! Nodes(b) && Nodes(a) !! Nodes(c) && Nodes(b) !! Nodes(c)
    ensures Distinct(a) && Distinct(b) && Distinct(c) && Distinct(Node(a, x, b)) && Distinct(Node(Node(a, x, b), y, c))
    ensures b.Node? ==> b.node in Nodes(b)
    ensures Nodes(Node(a, x, Node(b, y, c))) == Nodes(a) + {x} + Nodes(b) + {y} + Nodes(c)
    ensures RotateLeft(Node(a, x, Node(b, y, c))) == Node(Node(a, x, b), y, c)
  {
  }

  /** The same with a left child. */
  lemma LeftHeavy(a: Tree<ZNode>, y: ZNode, b: Tree<ZNode>, x: ZNode, c: Tree<ZNode>)
    requires Distinct(Node(Node(a, y, b), x, c))
    ensures x != y && {x, y} !! Nodes(a) && {x, y} !! Nodes(b) && {x, y} !! Nodes(c)
    ensures Nodes(a) !! Nodes(b) && Nodes(a) !! Nodes(c) && Nodes(b) !! Nodes(c)
    ensures Distinct(a) && Distinct(b) && Distinct(c) && Distinct(Node(b, x, c)) && Distinct(Node(a, y, Node(b, x, c)))
    ensures b.Node? ==> b.node in Nodes(b)
    ensures Nodes(Node(Node(a, y, b), x, c)) == Nodes(a) + {y} + Nodes(b) + {x} + Nodes(c)
    ensures RotateRight(Node(Node(a, y, b), x, c)) == Node(a, y, Node(b, x, c))
  {
  }

  lemma RepParts(t: Tree<ZNode>, p: ZNode?)
    requires t.Node? && Rep(t, p)
    ensures t.node.parent == p && t.node.left == Root(t.left) && t.node.right == Root(t.right)
    ensures Rep(t.left, t.node) && Rep(t.right, t.node)
  {
  }

  lemma RootIs(t: Tree<ZNode>)
    ensures Root(t) == if t.Leaf? then null else t.node
  {
  }

  method RotLeft(node: ZNode, ghost t: Tree<ZNode>) returns (newNode: ZNode)
    requires t.Node? && t.node == node && t.right.Node? && Distinct(t)
    requires node.left == Root(t.left) && node.right == Root(t.right)
    requires Rep(t.left, node) && Rep(t.right, node)
    modifies Nodes(t)`parent, Nodes(t)`left, Nodes(t)`right
    modifies Nodes(t)`height, Nodes(t)`count
    ensures newNode == Root(RotateLeft(t))
    ensures Rep(RotateLeft(t), old(node.parent))
  {
    hide *;
    ghost var a, y, b, c := t.left, t.right.node, t.right.left, t.right.right;
    assert t == Node(a, node, Node(b, y, c));
    RightHeavy(a, node, b, y, c);
    RepParts(t.right, node);
    RootIs(t.right);
    RootIs(b);
    Allocated(a);
    Allocated(b);
    Allocated(c);
    var parent := node.parent;
    newNode := node.right;
    var inner := newNode.left;
    node.right := inner;
    Adopt(inner, node, b, y);
    newNode.parent := parent;
    newNode.left := node;
    node.parent := newNode;
    Update(node, a, b);
    RootIs(Node(a, node, b));
    RootIs(Node(Node(a, node, b), y, c));
    Update(newNode, Node(a, node, b), c);
  }

  method RotRight(node: ZNode, ghost t: Tree<ZNode>) returns (newNode: ZNode)
    requires t.Node? && t.node == node && t.left.Node? && Distinct(t)
    requires node.left == Root(t.left) && node.right == Root(t.right)
    requires Rep(t.left, node) && Rep(t.right, node)
    modifies Nodes(t)`parent, Nodes(t)`left, Nodes(t)`right
    modifies Nodes(t)`height, Nodes(t)`count
    ensures newNode == Root(RotateRight(t))
    ensures Rep(RotateRight(t), old(node.parent))
  {
    hide *;
    ghost var a, y, b, c := t.left.left, t.left.node, t.left.right, t.right;
    assert t == Node(Node(a, y, b), node, c);
    LeftHeavy(a, y, b, node, c);
    RepParts(t.left, node);
    RootIs(t.left);
    RootIs(b);
    Allocated(a);
    Allocated(b);
    Allocated(c);
    var parent := node.parent;
    newNode := node.left;
    var inner := newNode.right;
    node.left := inner;
    Adopt(inner, node, b, y);
    newNode.parent := parent;
    newNode.right := node;
    node.parent := newNode;
    Update(node, b, c);
    RootIs(Node(b, node, c));
    RootIs(Node(a, y, Node(b, node, c)));
    Update(newNode, a, Node(b, node, c));
  }

  // ---------------------------------------------------------------- the climb

  /** The nodes of `t` are linked below `node`, whose own cached height and count may be stale. */
  ghost predicate Hangs(t: Tree<ZNode>, node: ZNode)
    reads node, if t.Node? then Nodes(t.left) + Nodes(t.right) else {}
  {
    && t.Node? && t.node == node && Distinct(t)
    && node.left == Root(t.left) && node.right == Root(t.right)
    && Rep(t.left, node) && Rep(t.right, node)
  }

  method FixLeftAt(node: ZNode, ghost t: Tree<ZNode>) returns (top: ZNode)
    requires Hangs(t, node) && Height(t.left) == Height(t.right) + 2
    modifies Nodes(t)`parent, Nodes(t)`left, Nodes(t)`right
    modifies Nodes(t)`height, Nodes(t)`count
    ensures top == Root(FixLeft(t)) && Rep(FixLeft(t), old(node.parent))
  {
    ghost var t' := t;
    Nearby(t);
    Nearby(t.left);
    Allocated(t.right);
    assert Rep(t.left.left, t.left.node) && Rep(t.left.right, t.left.node);
    assert H(node.left.left) == Height(t.left.left) && H(node.left.right) == Height(t.left.right);
    if H(node.left.left) < H(node.left.right) {
      assert t.left.right.Node?;
      var l := RotLeft(node.left, t.left);
      node.left := l;
      RotationKeepsNodes(t.left);
      t' := Node(RotateLeft(t.left), node, t.right);
    }
    top := RotRight(node, t');
  }

  method FixRightAt(node: ZNode, ghost t: Tree<ZNode>) returns (top: ZNode)
    requires Hangs(t, node) && Height(t.left) + 2 == Height(t.right)
    modifies Nodes(t)`parent, Nodes(t)`left, Nodes(t)`right
    modifies Nodes(t)`height, Nodes(t)`count
    ensures top == Root(FixRight(t)) && Rep(FixRight(t), old(node.parent))
  {
    ghost var t' := t;
    Nearby(t);
    Nearby(t.right);
    Allocated(t.left);
    assert Rep(t.right.left, t.right.node) && Rep(t.right.right, t.right.node);
    assert H(node.right.left) == Height(t.right.left) && H(node.right.right) == Height(t.right.right);
    if H(node.right.right) < H(node.right.left) {
      assert t.right.left.Node?;
      var r := RotRight(node.right, t.right);
      node.right := r;
      RotationKeepsNodes(t.right);
      t' := Node(t.left, node, RotateRight(t.right));
    }
    top := RotLeft(node, t');
  }

  /** Lines 54-61 of the climb: refresh the caches of `node`, then rotate if its halves differ by two. */
  method RebalanceAt(node: ZNode, ghost t: Tree<ZNode>) returns (top: ZNode)
    requires Hangs(t, node)
    modifies Nodes(t)`parent, Nodes(t)`left, Nodes(t)`right
    modifies Nodes(t)`height, Nodes(t)`count
    ensures top == Root(Rebalance(t)) && Rep(Rebalance(t), old(node.parent))
  {
    Allocated(t.left);
    Allocated(t.right);
    Update(node, t.left, t.right);
    var l := H(node.left);
    var r := H(node.right);
    if l == r + 2 {
      top := FixLeftAt(node, t);
    } else if l + 2 == r {
      top := FixRightAt(node, t);
    } else {
      top := node;
    }
  }

  lemma OneUpDistinct(c: Ctx<ZNode>, t: Tree<ZNode>, t': Tree<ZNode>)
    requires !c.Top? && Distinct(Plug(c, t)) && Distinct(t') && Nodes(t') == Nodes(t)
    ensures Distinct(Plug(c.up, OneUp(c, t'))) && Nodes(Plug(c.up, OneUp(c, t'))) == Nodes(Plug(c, t))
    ensures Distinct(OneUp(c, t')) && CtxNodes(c.up) !! Nodes(OneUp(c, t'))
    ensures CtxDistinct(c) && CtxNodes(c) !! Nodes(t) && c.node in Nodes(Plug(c, t))
  {
    PlugDistinct(c, t);
    PlugDistinct(c, t');
    PlugDistinct(c.up, OneUp(c, t'));
    PlugNodes(c, t);
    PlugNodes(c, t');
  }

  /** Stores `child` in the link of `parent` that led to `node`. */
  method Relink(parent: ZNode, node: ZNode, child: ZNode?,
                ghost c: Ctx<ZNode>, ghost t: Tree<ZNode>, ghost t': Tree<ZNode>, ghost exact: bool)
    requires t.Node? && t.node == node && parent == Up(c) && child == Root(t')
    requires RepCtx(c, t, true) || (!exact && RepCtx(c, t, false))
    requires exact ==> Height(t) == Height(t') && Count(t) == Count(t')
    requires CtxDistinct(c) && CtxNodes(c) !! Nodes(t)
    modifies parent`left, parent`right
    ensures RepCtx(c, t', exact)
  {
    assert parent.left == node <==> c.InLeft? by {
      if c.InRight? && c.left.Node? {
        Nearby(c.left);
      }
    }
    Refill(c.up, OneUp(c, t), OneUp(c, t'), exact);
    if parent.left == node {
      parent.left := child;
    } else {
      parent.right := child;
    }
  }

  /** One turn of the climb below a parent: rebalance, then store the new top in the link it came from. */
  method FixOne(node: ZNode, parent: ZNode, ghost c: Ctx<ZNode>, ghost t: Tree<ZNode>)
    requires Hangs(t, node) && node.parent == Up(c) == parent && RepCtx(c, t, false)
    requires Distinct(Plug(c, t))
    modifies (Nodes(t) + {parent})`parent, (Nodes(t) + {parent})`left, (Nodes(t) + {parent})`right
    modifies (Nodes(t) + {parent})`height, (Nodes(t) + {parent})`count
    ensures Hangs(OneUp(c, Rebalance(t)), parent) && parent.parent == Up(c.up)
    ensures RepCtx(c.up, OneUp(c, Rebalance(t)), false)
  {
    ghost var t' := Rebalance(t);
    RebalanceKeepsNodes(t);
    OneUpDistinct(c, t, t');
    CtxAllocated(c);
    Allocated(t');
    var top := RebalanceAt(node, t);
    Relink(parent, node, top, c, t, t', false);
  }

  /** Climbs from a node to the root, rebalancing every subtree on the way. */
  method Fix(start: ZNode, ghost c0: Ctx<ZNode>, ghost t0: Tree<ZNode>) returns (root: ZNode, ghost steps: nat)
    requires Hangs(t0, start) && start.parent == Up(c0) && RepCtx(c0, t0, false)
    requires Distinct(Plug(c0, t0))
    modifies Nodes(Plug(c0, t0))`parent, Nodes(Plug(c0, t0))`left, Nodes(Plug(c0, t0))`right
    modifies Nodes(Plug(c0, t0))`height, Nodes(Plug(c0, t0))`count
    ensures root == Root(FixUp(c0, t0)) && Rep(FixUp(c0, t0), null)
    ensures steps == Depth(c0) + 1
  {
    var node: ZNode := start;
    ghost var c, t := c0, t0;
    steps := 0;
    while true
      invariant steps + Depth(c) == Depth(c0)
      invariant Hangs(t, node) && node.parent == Up(c) && RepCtx(c, t, false)
      invariant Distinct(Plug(c, t)) && Nodes(Plug(c, t)) == Nodes(Plug(c0, t0))
      invariant FixUp(c, t) == FixUp(c0, t0)
      decreases c
    {
      ghost var t' := Rebalance(t);
      RebalanceKeepsNodes(t);
      PlugNodes(c, t);
      var parent := node.parent;
      steps := steps + 1;
      if parent == null {
        root := RebalanceAt(node, t);
        return;
      }
      OneUpDistinct(c, t, t');
      FixOne(node, parent, c, t);
      node, c, t := parent, c.up, OneUp(c, t');
    }
  }

  // ---------------------------------------------------------------- removal

  method DelEasy(node: ZNode, ghost c: Ctx<ZNode>, ghost t: Tree<ZNode>) returns (root: ZNode?)
    requires t.Node? && t.node == node && (t.left.Leaf? || t.right.Leaf?)
    requires Rep(Plug(c, t), null) && Distinct(Plug(c, t))
    modifies Nodes(Plug(c, t))`parent, Nodes(Plug(c, t))`left, Nodes(Plug(c, t))`right
    modifies Nodes(Plug(c, t))`height, Nodes(Plug(c, t))`count
    ensures root == Root(RemoveEasy(c, t)) && Rep(RemoveEasy(c, t), null)
  {
    hide *;
    ghost var ct := OnlyChild(t);
    Focus(c, t);
    PlugDistinct(c, t);
    PlugNodes(c, t);
    RepParts(t, Up(c));
    SpliceParts(c, t);
    CtxAllocated(c);
    Allocated(ct);
    var child := if node.left != null then node.left else node.right;
    var parent := node.parent;
    Adopt(child, parent, ct, node);
    if parent == null {
      return child;
    }
    Relink(parent, node, child, c, t, ct, false);
    Spliced(c, t, parent);
    ghost var steps;
    root, steps := Fix(parent, c.up, OneUp(c, ct));
  }

  /** What splicing out a node has to know. */
  lemma SpliceParts(c: Ctx<ZNode>, t: Tree<ZNode>)
    requires t.Node? && (t.left.Leaf? || t.right.Leaf?) && Distinct(t) && CtxDistinct(c) && CtxNodes(c) !! Nodes(t)
    ensures var ct := OnlyChild(t);
            && Root(ct) == (if Root(t.left) != null then Root(t.left) else Root(t.right))
            && (ct == t.left || ct == t.right) && Distinct(ct) && Nodes(ct) <= Nodes(t) && t.node !in Nodes(ct)
            && (c.Top? ==> RemoveEasy(c, t) == ct)
            && (!c.Top? ==>
                  && RemoveEasy(c, t) == FixUp(c.up, OneUp(c, ct)) && c.node in CtxNodes(c)
                  && Distinct(Plug(c.up, OneUp(c, ct)))
                  && Nodes(Plug(c.up, OneUp(c, ct))) <= CtxNodes(c) + Nodes(t))
    ensures Up(c) == (if c.Top? then null else c.node)
    ensures Root(t) == t.node && t.node in Nodes(t) && (OnlyChild(t).Node? ==> OnlyChild(t).node in Nodes(t))
  {
    var ct := OnlyChild(t);
    if !c.Top? {
      PlugNodes(c.up, OneUp(c, ct));
      PlugNodes(c, ct);
      PlugDistinct(c, ct);
      assert Plug(c, ct) == Plug(c.up, OneUp(c, ct));
    }
  }

  lemma Spliced(c: Ctx<ZNode>, t: Tree<ZNode>, parent: ZNode)
    requires t.Node? && (t.left.Leaf? || t.right.Leaf?) && !c.Top? && c.node == parent
    requires RepCtx(c, OnlyChild(t), false) && Rep(OnlyChild(t), parent)
    requires Distinct(t) && CtxDistinct(c) && CtxNodes(c) !! Nodes(t)
    ensures Hangs(OneUp(c, OnlyChild(t)), parent) && parent.parent == Up(c.up)
    ensures RepCtx(c.up, OneUp(c, OnlyChild(t)), false)
  {
    PlugDistinct(c, OnlyChild(t));
  }

  /** Removes `node`; with two children, its successor is taken out first and then, wherever the
      climb has left `node`, takes over all of its links. */
  method Del(node: ZNode, ghost c: Ctx<ZNode>, ghost t: Tree<ZNode>) returns (root: ZNode?)
    requires t.Node? && t.node == node
    requires Rep(Plug(c, t), null) && Distinct(Plug(c, t))
    modifies Nodes(Plug(c, t))`parent, Nodes(Plug(c, t))`left, Nodes(Plug(c, t))`right
    modifies Nodes(Plug(c, t))`height, Nodes(Plug(c, t))`count
    ensures root == Root(Remove(c, t)) && Rep(Remove(c, t), null)
  {
    Focus(c, t);
    if node.left == null || node.right == null {
      root := DelEasy(node, c, t);
      return;
    }
    ghost var cv := InRight(c, t.left, node);
    Allocated(Plug(c, t));
    var victim, v := FindLeftmost(node.right, cv, t.right);
    LeftSpinePlug(cv, t.right);
    ghost var spine := LeftSpine(cv, t.right);
    assert t == Node(t.left, node, t.right);
    assert Plug(spine, v) == Plug(c, t);
    root := DelEasy(victim, spine, v);
    ghost var c1, l1, r1, after := AfterSuccessorRemoved(c, t);
    root := TakeOver(root, victim, node, c1, l1, r1);
  }

  /** The walk of lines 23-26 to the leftmost node below `start`. */
  method FindLeftmost(start: ZNode, ghost c: Ctx<ZNode>, ghost t: Tree<ZNode>) returns (victim: ZNode, ghost v: Tree<ZNode>)
    requires t.Node? && t.node == start && Rep(t, Up(c))
    ensures v == Leftmost(t) && victim == v.node
  {
    victim, v := start, t;
    while victim.left != null
      invariant v.Node? && v.node == victim && Rep(v, victim.parent) && Leftmost(v) == Leftmost(t)
      decreases v
    {
      v := v.left;
      victim := victim.left;
    }
  }

  lemma {:induction false} PlugRoot(c: Ctx<ZNode>, t: Tree<ZNode>, t': Tree<ZNode>)
    requires !c.Top?
    ensures Root(Plug(c, t)) == Root(Plug(c, t'))
    decreases c
  {
    if !c.up.Top? {
      PlugRoot(c.up, OneUp(c, t), OneUp(c, t'));
    }
  }

  /** Lines 28-34: `victim` becomes a copy of `node`, and the children of `node` become its own. */
  method CopyLinks(victim: ZNode, node: ZNode, ghost l: Tree<ZNode>, ghost r: Tree<ZNode>)
    requires Rep(Node(l, node, r), node.parent) && Distinct(Node(l, node, r)) && victim !in Nodes(Node(l, node, r))
    modifies victim`parent, victim`left, victim`right
    modifies victim`height, victim`count
    modifies (if l.Node? then {l.node} else {})`parent, (if r.Node? then {r.node} else {})`parent
    ensures Rep(Node(l, victim, r), node.parent) && node.parent == old(node.parent)
  {
    hide *;
    NodeParts(l, node, r);
    NodeParts(l, victim, r);
    RepParts(Node(l, node, r), node.parent);
    RootIs(l);
    RootIs(r);
    Allocated(l);
    Allocated(r);
    Cached(l, node, r);
    victim.parent, victim.left, victim.right := node.parent, node.left, node.right;
    victim.height, victim.count := node.height, node.count;
    Adopt(victim.left, victim, l, node);
    Adopt(victim.right, victim, r, node);
    RepWhole(l, victim, r);
  }

  lemma NodeParts(l: Tree<ZNode>, n: ZNode, r: Tree<ZNode>)
    ensures Nodes(Node(l, n, r)) == Nodes(l) + {n} + Nodes(r)
    ensures Distinct(Node(l, n, r)) <==>
              Distinct(l) && Distinct(r) && n !in Nodes(l) && n !in Nodes(r) && Nodes(l) !! Nodes(r)
    ensures (l.Node? ==> l.node in Nodes(l)) && (r.Node? ==> r.node in Nodes(r))
  {
  }

  lemma Cached(l: Tree<ZNode>, n: ZNode, r: Tree<ZNode>)
    requires Rep(Node(l, n, r), n.parent)
    ensures n.height == Height(Node(l, n, r)) && n.count == Count(Node(l, n, r))
    ensures forall m :: Height(Node(l, m, r)) == n.height && Count(Node(l, m, r)) == n.count
  {
  }

  lemma RepWhole(l: Tree<ZNode>, n: ZNode, r: Tree<ZNode>)
    requires n.left == Root(l) && n.right == Root(r) && Rep(l, n) && Rep(r, n)
    requires n.height == Height(Node(l, n, r)) && n.count == Count(Node(l, n, r))
    ensures Rep(Node(l, n, r), n.parent)
  {
  }

  /** Lines 28-41: the copy, then the link that led to `node` leads to `victim`. */
  method TakeOver(top: ZNode?, victim: ZNode, node: ZNode,
                  ghost c: Ctx<ZNode>, ghost l: Tree<ZNode>, ghost r: Tree<ZNode>) returns (root: ZNode?)
    requires var t := Plug(c, Node(l, node, r)); top == Root(t) && Rep(t, null) && Distinct(t) && victim !in Nodes(t)
    modifies (Nodes(Plug(c, Node(l, node, r))) + {victim})`parent
    modifies (Nodes(Plug(c, Node(l, node, r))) + {victim})`left, (Nodes(Plug(c, Node(l, node, r))) + {victim})`right
    modifies (Nodes(Plug(c, Node(l, node, r))) + {victim})`height, (Nodes(Plug(c, Node(l, node, r))) + {victim})`count
    ensures var t' := Plug(c, Node(l, victim, r)); root == Root(t') && Rep(t', null)
  {
    hide *;
    ghost var t, t' := Node(l, node, r), Node(l, victim, r);
    Focus(c, t);
    PlugDistinct(c, t);
    PlugNodes(c, t);
    NodeParts(l, node, r);
    NodeParts(l, victim, r);
    SameSize(l, node, r, victim);
    RepParts(t, Up(c));
    TopIs(c, t, t');
    CtxAllocated(c);
    Allocated(t');
    CopyLinks(victim, node, l, r);
    var parent := node.parent;
    root := top;
    if parent == null {
      root := victim;
      TopIs(c, t, t');
    } else {
      Relink(parent, node, victim, c, t, t', true);
    }
    Focus(c, t');
  }

  lemma SameSize(l: Tree<ZNode>, n: ZNode, r: Tree<ZNode>, m: ZNode)
    ensures Height(Node(l, n, r)) == Height(Node(l, m, r)) && Count(Node(l, n, r)) == Count(Node(l, m, r))
  {
  }

  /** Where the root of the whole tree comes from, before and after a change in the hole. */
  lemma TopIs(c: Ctx<ZNode>, t: Tree<ZNode>, t': Tree<ZNode>)
    requires t.Node? && t'.Node?
    ensures Root(t) == t.node && Root(t') == t'.node && Up(c) == (if c.Top? then null else c.node)
    ensures c.Top? ==> Root(Plug(c, t')) == t'.node && RepCtx(c, t', true)
    ensures !c.Top? ==> Root(Plug(c, t)) == Root(Plug(c, t')) && c.node in CtxNodes(c)
  {
    if !c.Top? {
      PlugRoot(c, t, t');
    }
  }
}
