/** The shape of an intrusive AVL tree, as a value over the identities of its nodes.

    Nothing here reads the heap: a `Tree` says which node hangs where, a `Ctx` is the path from a
    position up to the root, and `Rebalance`/`FixUp`/`Remove` are the shapes that the in-place code
    of avl.dfy must produce. What the code promises (balance, order, logarithmic height) is proved
    about these functions. */
module Shape {
  import opened Sequences

  /** A tree whose nodes are named by values of type `N` (the node objects, in avl.dfy). */
  datatype Tree<N> = Leaf | Node(left: Tree<N>, node: N, right: Tree<N>)

  /** A tree with one subtree missing, as the path from the hole up to the root. */
  datatype Ctx<N> =
    | Top
    | InLeft(up: Ctx<N>, node: N, right: Tree<N>)   // the hole is the left child of node
    | InRight(up: Ctx<N>, left: Tree<N>, node: N)   // the hole is the right child of node

  function Max(a: int, b: int): int { if a < b then b else a }

  ghost function Height<N>(t: Tree<N>): nat {
    if t.Leaf? then 0 else 1 + Max(Height(t.left), Height(t.right))
  }

  ghost function Count<N>(t: Tree<N>): nat {
    if t.Leaf? then 0 else 1 + Count(t.left) + Count(t.right)
  }

  ghost function InOrder<N>(t: Tree<N>): seq<N> {
    if t.Leaf? then [] else InOrder(t.left) + [t.node] + InOrder(t.right)
  }

  ghost function Nodes<N>(t: Tree<N>): set<N> {
    if t.Leaf? then {} else Nodes(t.left) + {t.node} + Nodes(t.right)
  }

  lemma Nearby<N>(t: Tree<N>)
    requires t.Node?
    ensures t.node in Nodes(t) && Nodes(t.left) <= Nodes(t) && Nodes(t.right) <= Nodes(t)
    ensures t.left.Node? ==> t.left.node in Nodes(t)
    ensures t.right.Node? ==> t.right.node in Nodes(t)
  {
  }

  /** No node hangs in two places. */
  ghost predicate Distinct<N>(t: Tree<N>) {
    t.Node? ==>
      && t.node !in Nodes(t.left) && t.node !in Nodes(t.right)
      && Nodes(t.left) !! Nodes(t.right)
      && Distinct(t.left) && Distinct(t.right)
  }

  ghost predicate Balanced<N>(t: Tree<N>) {
    t.Node? ==>
      && -1 <= Height(t.left) - Height(t.right) <= 1
      && Balanced(t.left) && Balanced(t.right)
  }

  ghost function Plug<N>(c: Ctx<N>, t: Tree<N>): Tree<N>
    decreases c
  {
    match c
    case Top => t
    case InLeft(up, n, r) => Plug(up, Node(t, n, r))
    case InRight(up, l, n) => Plug(up, Node(l, n, t))
  }

  ghost function CtxNodes<N>(c: Ctx<N>): set<N> {
    match c
    case Top => {}
    case InLeft(up, n, r) => CtxNodes(up) + {n} + Nodes(r)
    case InRight(up, l, n) => CtxNodes(up) + {n} + Nodes(l)
  }

  /** The nodes before the hole in order. */
  ghost function Pre<N>(c: Ctx<N>): seq<N> {
    match c
    case Top => []
    case InLeft(up, n, r) => Pre(up)
    case InRight(up, l, n) => Pre(up) + InOrder(l) + [n]
  }

  /** The nodes after the hole in order. */
  ghost function Post<N>(c: Ctx<N>): seq<N> {
    match c
    case Top => []
    case InLeft(up, n, r) => [n] + InOrder(r) + Post(up)
    case InRight(up, l, n) => Post(up)
  }

  ghost predicate CtxDistinct<N>(c: Ctx<N>) {
    match c
    case Top => true
    case InLeft(up, n, r) =>
      n !in CtxNodes(up) && n !in Nodes(r) && CtxNodes(up) !! Nodes(r) && CtxDistinct(up) && Distinct(r)
    case InRight(up, l, n) =>
      n !in CtxNodes(up) && n !in Nodes(l) && CtxNodes(up) !! Nodes(l) && CtxDistinct(up) && Distinct(l)
  }

  ghost function Depth<N>(c: Ctx<N>): nat {
    if c.Top? then 0 else 1 + Depth(c.up)
  }

  // ---------------------------------------------------------------- trees, contexts, sequences

  lemma {:induction false} CountIsLength<N>(t: Tree<N>)
    ensures |InOrder(t)| == Count(t)
  {
    if t.Node? {
      CountIsLength(t.left);
      CountIsLength(t.right);
    }
  }

  lemma {:induction false} InOrderHasNodes<N>(t: Tree<N>, n: N)
    ensures n in InOrder(t) <==> n in Nodes(t)
  {
    if t.Node? {
      InOrderHasNodes(t.left, n);
      InOrderHasNodes(t.right, n);
    }
  }

  lemma {:induction false} PlugInOrder<N>(c: Ctx<N>, t: Tree<N>)
    ensures InOrder(Plug(c, t)) == Pre(c) + InOrder(t) + Post(c)
    decreases c
  {
    match c
    case Top =>
    case InLeft(up, n, r) =>
      PlugInOrder(up, Node(t, n, r));
      ConcatRight(Pre(up), InOrder(t), n, InOrder(r), Post(up));
    case InRight(up, l, n) =>
      PlugInOrder(up, Node(l, n, t));
      ConcatLeft(Pre(up), InOrder(l), n, InOrder(t), Post(up));
  }

  lemma {:induction false} PlugNodes<N>(c: Ctx<N>, t: Tree<N>)
    ensures Nodes(Plug(c, t)) == CtxNodes(c) + Nodes(t)
    decreases c
  {
    match c
    case Top =>
    case InLeft(up, n, r) => PlugNodes(up, Node(t, n, r));
    case InRight(up, l, n) => PlugNodes(up, Node(l, n, t));
  }

  lemma {:induction false} PlugDistinct<N>(c: Ctx<N>, t: Tree<N>)
    ensures Distinct(Plug(c, t)) <==> Distinct(t) && CtxDistinct(c) && CtxNodes(c) !! Nodes(t)
    decreases c
  {
    match c
    case Top =>
    case InLeft(up, n, r) => PlugDistinct(up, Node(t, n, r));
    case InRight(up, l, n) => PlugDistinct(up, Node(l, n, t));
  }

  lemma {:induction false} DistinctThenNoDup<N>(t: Tree<N>)
    requires Distinct(t)
    ensures NoDup(InOrder(t))
  {
    if t.Node? {
      var l, r := InOrder(t.left), InOrder(t.right);
      DistinctThenNoDup(t.left);
      DistinctThenNoDup(t.right);
      InOrderHasNodes(t.left, t.node);
      NoDupConcat(l, [t.node]);
      forall x | x in l + [t.node] ensures x !in r {
        InOrderHasNodes(t.left, x);
        InOrderHasNodes(t.right, x);
      }
      NoDupConcat(l + [t.node], r);
    }
  }

  lemma {:induction false} NoDupThenDistinct<N>(t: Tree<N>)
    requires NoDup(InOrder(t))
    ensures Distinct(t)
  {
    if t.Node? {
      var l, r := InOrder(t.left), InOrder(t.right);
      NoDupParts(l + [t.node], r);
      NoDupParts(l, [t.node]);
      NoDupThenDistinct(t.left);
      NoDupThenDistinct(t.right);
      forall n | n in Nodes(t.left) + {t.node} ensures n !in Nodes(t.right) {
        InOrderHasNodes(t.left, n);
        InOrderHasNodes(t.right, n);
        assert n in l + [t.node];
      }
      InOrderHasNodes(t.left, t.node);
    }
  }

  /** Where a node hangs: the context above it and the subtrees below it. */
  lemma {:induction false} Locate<N>(c: Ctx<N>, t: Tree<N>, n: N) returns (c': Ctx<N>, l: Tree<N>, r: Tree<N>)
    requires n in Nodes(t)
    ensures Plug(c', Node(l, n, r)) == Plug(c, t)
    decreases t
  {
    if t.node == n {
      c', l, r := c, t.left, t.right;
    } else if n in Nodes(t.left) {
      c', l, r := Locate(InLeft(c, t.node, t.right), t.left, n);
    } else {
      c', l, r := Locate(InRight(c, t.left, t.node), t.right, n);
    }
  }

  // ---------------------------------------------------------------- rotations and rebalancing

  ghost function RotateLeft<N>(t: Tree<N>): Tree<N>
    requires t.Node? && t.right.Node?
  {
    Node(Node(t.left, t.node, t.right.left), t.right.node, t.right.right)
  }

  ghost function RotateRight<N>(t: Tree<N>): Tree<N>
    requires t.Node? && t.left.Node?
  {
    Node(t.left.left, t.left.node, Node(t.left.right, t.node, t.right))
  }

  ghost function FixLeft<N>(t: Tree<N>): Tree<N>
    requires t.Node? && t.left.Node?
  {
    if Height(t.left.left) < Height(t.left.right) then
      RotateRight(Node(RotateLeft(t.left), t.node, t.right))
    else
      RotateRight(t)
  }

  ghost function FixRight<N>(t: Tree<N>): Tree<N>
    requires t.Node? && t.right.Node?
  {
    if Height(t.right.right) < Height(t.right.left) then
      RotateLeft(Node(t.left, t.node, RotateRight(t.right)))
    else
      RotateLeft(t)
  }

  /** What one step of the climb makes of the subtree it stands on. */
  ghost function Rebalance<N>(t: Tree<N>): Tree<N>
    requires t.Node?
  {
    if Height(t.left) == Height(t.right) + 2 then FixLeft(t)
    else if Height(t.left) + 2 == Height(t.right) then FixRight(t)
    else t
  }

  /** What the whole climb makes of the tree: rebalance here, then at every ancestor. */
  ghost function FixUp<N>(c: Ctx<N>, t: Tree<N>): (r: Tree<N>)
    requires t.Node?
    decreases c
  {
    var t' := Rebalance(t);
    match c
    case Top => t'
    case InLeft(up, n, r) => FixUp(up, Node(t', n, r))
    case InRight(up, l, n) => FixUp(up, Node(l, n, t'))
  }

  lemma RotateLeftInOrder<N>(t: Tree<N>)
    requires t.Node? && t.right.Node?
    ensures InOrder(RotateLeft(t)) == InOrder(t)
  {
    ConcatFive(InOrder(t.left), t.node, InOrder(t.right.left), t.right.node, InOrder(t.right.right));
  }

  lemma RotateRightInOrder<N>(t: Tree<N>)
    requires t.Node? && t.left.Node?
    ensures InOrder(RotateRight(t)) == InOrder(t)
  {
    ConcatFive(InOrder(t.left.left), t.left.node, InOrder(t.left.right), t.node, InOrder(t.right));
  }

  lemma RebalanceInOrder<N>(t: Tree<N>)
    requires t.Node?
    ensures Rebalance(t).Node?
    ensures InOrder(Rebalance(t)) == InOrder(t)
  {
    if Height(t.left) == Height(t.right) + 2 {
      if Height(t.left.left) < Height(t.left.right) {
        RotateLeftInOrder(t.left);
        RotateRightInOrder(Node(RotateLeft(t.left), t.node, t.right));
      } else {
        RotateRightInOrder(t);
      }
    } else if Height(t.left) + 2 == Height(t.right) {
      if Height(t.right.right) < Height(t.right.left) {
        RotateRightInOrder(t.right);
        RotateLeftInOrder(Node(t.left, t.node, RotateRight(t.right)));
      } else {
        RotateLeftInOrder(t);
      }
    }
  }

  lemma RotationKeepsNodes<N>(t: Tree<N>)
    requires t.Node? && Distinct(t)
    ensures t.right.Node? ==> Nodes(RotateLeft(t)) == Nodes(t) && Distinct(RotateLeft(t))
    ensures t.left.Node? ==> Nodes(RotateRight(t)) == Nodes(t) && Distinct(RotateRight(t))
  {
  }

  lemma RebalanceKeepsNodes<N>(t: Tree<N>)
    requires t.Node? && Distinct(t)
    ensures Rebalance(t).Node? && Nodes(Rebalance(t)) == Nodes(t) && Distinct(Rebalance(t))
  {
    RebalanceInOrder(t);
    DistinctThenNoDup(t);
    NoDupThenDistinct(Rebalance(t));
    forall n ensures n in Nodes(Rebalance(t)) <==> n in Nodes(t) {
      InOrderHasNodes(t, n);
      InOrderHasNodes(Rebalance(t), n);
    }
  }

  /** The climb never reorders the nodes, whatever the heights. */
  lemma {:induction false} FixUpInOrder<N>(c: Ctx<N>, t: Tree<N>)
    requires t.Node?
    ensures FixUp(c, t).Node?
    ensures InOrder(FixUp(c, t)) == Pre(c) + InOrder(t) + Post(c)
    decreases c
  {
    var t' := Rebalance(t);
    RebalanceInOrder(t);
    match c
    case Top =>
    case InLeft(up, n, r) =>
      FixUpInOrder(up, Node(t', n, r));
      ConcatRight(Pre(up), InOrder(t), n, InOrder(r), Post(up));
    case InRight(up, l, n) =>
      FixUpInOrder(up, Node(l, n, t'));
      ConcatLeft(Pre(up), InOrder(l), n, InOrder(t), Post(up));
  }

  /** The rest of the tree is balanced when the hole is filled by a subtree of height `h`. */
  ghost predicate CtxBalanced<N>(c: Ctx<N>, h: nat)
    decreases c
  {
    match c
    case Top => true
    case InLeft(up, n, r) =>
      -1 <= h - Height(r) <= 1 && Balanced(r) && CtxBalanced(up, 1 + Max(h, Height(r)))
    case InRight(up, l, n) =>
      -1 <= h - Height(l) <= 1 && Balanced(l) && CtxBalanced(up, 1 + Max(h, Height(l)))
  }

  lemma {:induction false} PlugBalanced<N>(c: Ctx<N>, t: Tree<N>)
    ensures Balanced(Plug(c, t)) <==> Balanced(t) && CtxBalanced(c, Height(t))
    decreases c
  {
    match c
    case Top =>
    case InLeft(up, n, r) => PlugBalanced(up, Node(t, n, r));
    case InRight(up, l, n) => PlugBalanced(up, Node(l, n, t));
  }

  /** The subtree `t` stands where one of height `h` stood before one of its own subtrees changed
      height by at most one: its halves differ by at most two, and rebalancing it cannot move its
      height by more than one from `h`. */
  ghost predicate Perturbed<N>(t: Tree<N>, h: nat)
    requires t.Node?
  {
    var hl, hr := Height(t.left), Height(t.right);
    && Balanced(t.left) && Balanced(t.right)
    && if -1 <= hl - hr <= 1 then -1 <= 1 + Max(hl, hr) - h <= 1
       else -2 <= hl - hr <= 2 && (h == Max(hl, hr) || h == 1 + Max(hl, hr))
  }

  /** Replacing one balanced half by another whose height is within one of it perturbs a node. */
  lemma HalfChanged<N>(l: Tree<N>, n: N, r: Tree<N>, h: nat)
    requires Balanced(l) && Balanced(r)
    ensures -1 <= h - Height(r) <= 1 && -1 <= h - Height(l) <= 1 ==>
              && Perturbed(Node(l, n, r), 1 + Max(h, Height(r)))
              && Perturbed(Node(l, n, r), 1 + Max(h, Height(l)))
  {
  }

  lemma NodeShape<N>(l: Tree<N>, n: N, r: Tree<N>)
    ensures Height(Node(l, n, r)) == 1 + if Height(l) < Height(r) then Height(r) else Height(l)
    ensures Balanced(Node(l, n, r)) <==> Balanced(l) && Balanced(r) && -1 <= Height(l) - Height(r) <= 1
  {
  }

  /** The trees that a single and a double rotation end in. */
  lemma FixLeftShape<N>(a: Tree<N>, x: N, b: Tree<N>, y: N, c: Tree<N>)
    ensures var t := Node(Node(a, x, b), y, c);
            if Height(a) < Height(b)
            then b.Node? && FixLeft(t) == Node(Node(a, x, b.left), b.node, Node(b.right, y, c))
            else FixLeft(t) == Node(a, x, Node(b, y, c))
  {
  }

  lemma FixRightShape<N>(a: Tree<N>, x: N, b: Tree<N>, y: N, c: Tree<N>)
    ensures var t := Node(a, x, Node(b, y, c));
            if Height(c) < Height(b)
            then b.Node? && FixRight(t) == Node(Node(a, x, b.left), b.node, Node(b.right, y, c))
            else FixRight(t) == Node(Node(a, x, b), y, c)
  {
  }

  /** A double rotation: four balanced parts, the outer ones as high as the higher of the inner ones. */
  lemma FourParts<N>(a: Tree<N>, x: N, b: Tree<N>, y: N, c: Tree<N>, z: N, d: Tree<N>)
    requires Balanced(a) && Balanced(Node(b, y, c)) && Balanced(d)
    requires Height(a) + 1 == Height(Node(b, y, c)) == Height(d) + 1
    ensures var t := Node(Node(a, x, b), y, Node(c, z, d));
            Balanced(t) && Height(t) == Height(a) + 2
  {
    hide *;
    NodeShape(b, y, c);
    NodeShape(a, x, b);
    NodeShape(c, z, d);
    NodeShape(Node(a, x, b), y, Node(c, z, d));
  }

  lemma PerturbedParts<N>(l: Tree<N>, n: N, r: Tree<N>, h: nat)
    requires Perturbed(Node(l, n, r), h)
    ensures Balanced(l) && Balanced(r)
    ensures Height(l) == Height(r) + 2 ==> h == Height(l) || h == 1 + Height(l)
    ensures Height(l) + 2 == Height(r) ==> h == Height(r) || h == 1 + Height(r)
  {
  }

  lemma FixLeftPerturbed<N>(t: Tree<N>, h: nat)
    requires t.Node? && Perturbed(t, h) && Height(t.left) == Height(t.right) + 2
    ensures t.left.Node? && Balanced(FixLeft(t)) && -1 <= Height(FixLeft(t)) - h <= 1
  {
    hide *;
    HasNode(t.left);
    var a, x, b, y, c := t.left.left, t.left.node, t.left.right, t.node, t.right;
    assert t == Node(Node(a, x, b), y, c);
    PerturbedParts(t.left, y, c, h);
    NodeShape(a, x, b);
    FixLeftShape(a, x, b, y, c);
    if Height(a) < Height(b) {
      FourParts(a, x, b.left, b.node, b.right, y, c);
    } else {
      NodeShape(b, y, c);
      NodeShape(a, x, Node(b, y, c));
    }
  }

  lemma FixRightPerturbed<N>(t: Tree<N>, h: nat)
    requires t.Node? && Perturbed(t, h) && Height(t.left) + 2 == Height(t.right)
    ensures t.right.Node? && Balanced(FixRight(t)) && -1 <= Height(FixRight(t)) - h <= 1
  {
    hide *;
    HasNode(t.right);
    var a, x, b, y, c := t.left, t.node, t.right.left, t.right.node, t.right.right;
    assert t == Node(a, x, Node(b, y, c));
    PerturbedParts(a, x, t.right, h);
    NodeShape(b, y, c);
    FixRightShape(a, x, b, y, c);
    if Height(c) < Height(b) {
      FourParts(a, x, b.left, b.node, b.right, y, c);
    } else {
      NodeShape(a, x, b);
      NodeShape(Node(a, x, b), y, c);
    }
  }

  lemma HasNode<N>(t: Tree<N>)
    ensures t.Node? <==> Height(t) > 0
  {
  }

  lemma RebalancePerturbed<N>(t: Tree<N>, h: nat)
    requires t.Node? && Perturbed(t, h)
    ensures Balanced(Rebalance(t)) && -1 <= Height(Rebalance(t)) - h <= 1
  {
    if Height(t.left) == Height(t.right) + 2 {
      FixLeftPerturbed(t, h);
    } else if Height(t.left) + 2 == Height(t.right) {
      FixRightPerturbed(t, h);
    }
  }

  lemma FixUpOnce<N>(c: Ctx<N>, t: Tree<N>)
    requires t.Node?
    ensures FixUp(c, t) == match c
                           case Top => Rebalance(t)
                           case InLeft(up, n, r) => FixUp(up, Node(Rebalance(t), n, r))
                           case InRight(up, l, n) => FixUp(up, Node(l, n, Rebalance(t)))
  {
  }

  lemma CtxBalancedAt<N>(c: Ctx<N>, h: nat)
    requires CtxBalanced(c, h) && !c.Top?
    ensures var s := if c.InLeft? then c.right else c.left;
            && -1 <= h - Height(s) <= 1 && Balanced(s)
            && Max(h, Height(s)) >= 0 && CtxBalanced(c.up, 1 + Max(h, Height(s)))
  {
  }

  lemma ChangedLeft<N>(up: Ctx<N>, l: Tree<N>, n: N, r: Tree<N>, h: nat)
    requires CtxBalanced(InLeft(up, n, r), h) && Balanced(l) && -1 <= Height(l) - h <= 1
    ensures Max(h, Height(r)) >= 0
    ensures Perturbed(Node(l, n, r), 1 + Max(h, Height(r))) && CtxBalanced(up, 1 + Max(h, Height(r)))
  {
    hide *;
    CtxBalancedAt(InLeft(up, n, r), h);
    HalfChanged(l, n, r, h);
  }

  lemma ChangedRight<N>(up: Ctx<N>, l: Tree<N>, n: N, r: Tree<N>, h: nat)
    requires CtxBalanced(InRight(up, l, n), h) && Balanced(r) && -1 <= Height(r) - h <= 1
    ensures Max(h, Height(l)) >= 0
    ensures Perturbed(Node(l, n, r), 1 + Max(h, Height(l))) && CtxBalanced(up, 1 + Max(h, Height(l)))
  {
    hide *;
    CtxBalancedAt(InRight(up, l, n), h);
    HalfChanged(l, n, r, h);
  }

  /** If a subtree that fitted its place with height `h` has been perturbed by one change of height,
      the climb ends in a balanced tree: the single and double rotations are the right ones. */
  lemma {:induction false} FixUpBalanced<N>(c: Ctx<N>, t: Tree<N>, h: nat)
    requires t.Node? && Perturbed(t, h) && CtxBalanced(c, h)
    ensures Balanced(FixUp(c, t))
    decreases c
  {
    hide *;
    var t' := Rebalance(t);
    RebalancePerturbed(t, h);
    FixUpOnce(c, t);
    match c
    case Top =>
    case InLeft(up, n, r) =>
      ChangedLeft(up, t', n, r, h);
      FixUpBalanced(up, Node(t', n, r), 1 + Max(h, Height(r)));
    case InRight(up, l, n) =>
      ChangedRight(up, l, n, t', h);
      FixUpBalanced(up, Node(l, n, t'), 1 + Max(h, Height(l)));
  }

  /** Where nothing is out of balance the climb changes nothing. */
  lemma {:induction false} FixUpRests<N>(c: Ctx<N>, t: Tree<N>)
    requires t.Node? && Balanced(Plug(c, t))
    ensures FixUp(c, t) == Plug(c, t)
    decreases c
  {
    PlugBalanced(c, t);
    FixUpOnce(c, t);
    assert Rebalance(t) == t;
    match c
    case Top =>
    case InLeft(up, n, r) => FixUpRests(up, Node(t, n, r));
    case InRight(up, l, n) => FixUpRests(up, Node(l, n, t));
  }

  // ---------------------------------------------------------------- removal

  /** Moving one edge up: `t` becomes a child of the node the path leads to. */
  ghost function OneUp<N>(c: Ctx<N>, t: Tree<N>): Tree<N>
    requires !c.Top?
  {
    if c.InLeft? then Node(t, c.node, c.right) else Node(c.left, c.node, t)
  }

  ghost function OnlyChild<N>(t: Tree<N>): Tree<N>
    requires t.Node?
  {
    if t.left.Node? then t.left else t.right
  }

  /** Removing a node with at most one child: the child takes its place, and the climb starts above. */
  ghost function RemoveEasy<N>(c: Ctx<N>, t: Tree<N>): Tree<N>
    requires t.Node?
  {
    if c.Top? then OnlyChild(t) else FixUp(c.up, OneUp(c, OnlyChild(t)))
  }

  ghost function Leftmost<N>(t: Tree<N>): (v: Tree<N>)
    requires t.Node?
    ensures v.Node? && v.left.Leaf?
  {
    if t.left.Leaf? then t else Leftmost(t.left)
  }

  /** The path to the leftmost node of `t`, when `t` itself hangs at `c`. */
  ghost function LeftSpine<N>(c: Ctx<N>, t: Tree<N>): Ctx<N>
    requires t.Node?
    decreases t
  {
    if t.left.Leaf? then c else LeftSpine(InLeft(c, t.node, t.right), t.left)
  }

  /** The same tree with `v` standing wherever `n` stood. */
  ghost function Replace<N>(t: Tree<N>, n: N, v: N): Tree<N> {
    if t.Leaf? then Leaf
    else Node(Replace(t.left, n, v), if t.node == n then v else t.node, Replace(t.right, n, v))
  }

  /** Removing any node: one with two children is replaced by its successor, which is removed first. */
  ghost function Remove<N>(c: Ctx<N>, t: Tree<N>): Tree<N>
    requires t.Node?
  {
    if t.left.Leaf? || t.right.Leaf? then RemoveEasy(c, t)
    else
      var victim := Leftmost(t.right);
      Replace(RemoveEasy(LeftSpine(InRight(c, t.left, t.node), t.right), victim), t.node, victim.node)
  }

  lemma {:induction false} LeftSpinePlug<N>(c: Ctx<N>, t: Tree<N>)
    requires t.Node?
    ensures Plug(LeftSpine(c, t), Leftmost(t)) == Plug(c, t)
    ensures Pre(LeftSpine(c, t)) == Pre(c)
    decreases t
  {
    if t.left.Node? {
      LeftSpinePlug(InLeft(c, t.node, t.right), t.left);
    }
  }

  lemma {:induction false} ReplaceAbsent<N>(t: Tree<N>, n: N, v: N)
    requires n !in Nodes(t)
    ensures Replace(t, n, v) == t
  {
    if t.Node? {
      ReplaceAbsent(t.left, n, v);
      ReplaceAbsent(t.right, n, v);
    }
  }

  lemma {:induction false} ReplacePlug<N>(c: Ctx<N>, t: Tree<N>, n: N, v: N)
    requires n !in CtxNodes(c)
    ensures Replace(Plug(c, t), n, v) == Plug(c, Replace(t, n, v))
    decreases c
  {
    match c
    case Top =>
    case InLeft(up, q, r) =>
      ReplaceAbsent(r, n, v);
      ReplacePlug(up, Node(t, q, r), n, v);
    case InRight(up, l, q) =>
      ReplaceAbsent(l, n, v);
      ReplacePlug(up, Node(l, q, t), n, v);
  }

  /** Replacing a node by a stranger changes nothing but the name standing at that place. */
  lemma ReplaceAt<N>(c: Ctx<N>, l: Tree<N>, n: N, r: Tree<N>, v: N)
    requires Distinct(Plug(c, Node(l, n, r)))
    ensures Replace(Plug(c, Node(l, n, r)), n, v) == Plug(c, Node(l, v, r))
  {
    PlugDistinct(c, Node(l, n, r));
    assert n in Nodes(Node(l, n, r));
    ReplacePlug(c, Node(l, n, r), n, v);
    ReplaceAbsent(l, n, v);
    ReplaceAbsent(r, n, v);
  }

  lemma {:induction false} ReplaceBalanced<N>(t: Tree<N>, n: N, v: N)
    ensures Height(Replace(t, n, v)) == Height(t)
    ensures Balanced(t) ==> Balanced(Replace(t, n, v))
  {
    if t.Node? {
      ReplaceBalanced(t.left, n, v);
      ReplaceBalanced(t.right, n, v);
    }
  }

  lemma RemoveEasyInOrder<N>(c: Ctx<N>, t: Tree<N>)
    requires t.Node? && (t.left.Leaf? || t.right.Leaf?)
    ensures InOrder(RemoveEasy(c, t)) == Pre(c) + (InOrder(t.left) + InOrder(t.right)) + Post(c)
  {
    var child := OnlyChild(t);
    assert InOrder(child) == InOrder(t.left) + InOrder(t.right);
    match c
    case Top =>
    case InLeft(up, n, r) =>
      FixUpInOrder(up, Node(child, n, r));
      ConcatRight(Pre(up), InOrder(child), n, InOrder(r), Post(up));
    case InRight(up, l, n) =>
      FixUpInOrder(up, Node(l, n, child));
      ConcatLeft(Pre(up), InOrder(l), n, InOrder(child), Post(up));
  }

  lemma RemoveEasyBalanced<N>(c: Ctx<N>, t: Tree<N>)
    requires t.Node? && (t.left.Leaf? || t.right.Leaf?) && Balanced(Plug(c, t))
    ensures Balanced(RemoveEasy(c, t))
  {
    PlugBalanced(c, t);
    var child := OnlyChild(t);
    var h := Height(t);
    hide FixUp;
    hide Plug;
    match c
    case Top =>
    case InLeft(up, n, r) =>
      HalfChanged(child, n, r, h);
      FixUpBalanced(up, Node(child, n, r), 1 + Max(h, Height(r)));
    case InRight(up, l, n) =>
      HalfChanged(l, n, child, h);
      FixUpBalanced(up, Node(l, n, child), 1 + Max(h, Height(l)));
  }

  lemma NodesWithout<N>(whole: Tree<N>, rest: Tree<N>, a: seq<N>, x: N, b: seq<N>)
    requires InOrder(whole) == a + [x] + b && InOrder(rest) == a + b && x !in a + b
    ensures x in Nodes(whole) && Nodes(rest) == Nodes(whole) - {x}
  {
    forall n | n in Nodes(whole) ensures n in Nodes(rest) || n == x {
      InOrderHasNodes(whole, n);
      InOrderHasNodes(rest, n);
      InWithout(a, x, b, n);
    }
    forall n | n in Nodes(rest) ensures n in Nodes(whole) && n != x {
      InOrderHasNodes(whole, n);
      InOrderHasNodes(rest, n);
      InWithout(a, x, b, n);
    }
    InOrderHasNodes(whole, x);
  }

  /** One node less in order is one node less in the tree. */
  lemma OneLess<N>(whole: Tree<N>, rest: Tree<N>, a: seq<N>, x: N, b: seq<N>)
    requires Distinct(whole) && InOrder(whole) == a + [x] + b && InOrder(rest) == a + b
    ensures Distinct(rest) && x in Nodes(whole) && Nodes(rest) == Nodes(whole) - {x}
  {
    DistinctThenNoDup(whole);
    NoDupWithout(a, x, b);
    NoDupThenDistinct(rest);
    NodesWithout(whole, rest, a, x, b);
  }

  /** One node more in order is one node more in the tree. */
  lemma OneMore<N>(rest: Tree<N>, whole: Tree<N>, a: seq<N>, x: N, b: seq<N>)
    requires Distinct(rest) && InOrder(rest) == a + b && InOrder(whole) == a + [x] + b && x !in a + b
    ensures Distinct(whole) && Nodes(whole) == Nodes(rest) + {x}
  {
    DistinctThenNoDup(rest);
    NoDupParts(a, b);
    NoDupConcat(a, [x]);
    forall y | y in a + [x] ensures y !in b {
      assert y in a || y == x;
    }
    NoDupConcat(a + [x], b);
    NoDupThenDistinct(whole);
    NodesWithout(whole, rest, a, x, b);
  }

  /** The order around a node that has a right subtree, seen from its successor's place. */
  lemma SuccessorSplit<N>(c: Ctx<N>, t: Tree<N>) returns (after: seq<N>)
    requires t.Node? && t.right.Node?
    ensures var victim := Leftmost(t.right);
            var spine := LeftSpine(InRight(c, t.left, t.node), t.right);
            && Plug(spine, victim) == Plug(c, t)
            && Pre(spine) == Pre(c) + InOrder(t.left) + [t.node]
            && after == InOrder(victim.right) + Post(spine)
            && [victim.node] + after == InOrder(t.right) + Post(c)
  {
    var victim := Leftmost(t.right);
    var spine := LeftSpine(InRight(c, t.left, t.node), t.right);
    LeftSpinePlug(InRight(c, t.left, t.node), t.right);
    after := InOrder(victim.right) + Post(spine);
    PlugInOrder(spine, victim);
    PlugInOrder(c, t);
    assert InOrder(victim) == [victim.node] + InOrder(victim.right);
    ConcatOut(Pre(c), InOrder(t.left), t.node, InOrder(t.right), Post(c));
    var a := Pre(c) + InOrder(t.left) + [t.node];
    assert a + InOrder(victim) + Post(spine) == a + ([victim.node] + after);
    SamePrefix(a, [victim.node] + after, InOrder(t.right) + Post(c));
  }

  /** Where a node with two children stands once its successor has been taken out: the climb may
      have moved it, but its neighbours in order are what they were, without the successor. */
  lemma AfterSuccessorRemoved<N>(c: Ctx<N>, t: Tree<N>) returns (c1: Ctx<N>, l1: Tree<N>, r1: Tree<N>, after: seq<N>)
    requires t.Node? && t.left.Node? && t.right.Node? && Distinct(Plug(c, t))
    ensures var victim := Leftmost(t.right);
            var rest := RemoveEasy(LeftSpine(InRight(c, t.left, t.node), t.right), victim);
            && rest == Plug(c1, Node(l1, t.node, r1)) && Distinct(rest) && victim.node !in Nodes(rest)
            && victim.node in Nodes(Plug(c, t)) && Nodes(rest) == Nodes(Plug(c, t)) - {victim.node}
            && Remove(c, t) == Plug(c1, Node(l1, victim.node, r1))
            && Pre(c1) + InOrder(l1) == Pre(c) + InOrder(t.left)
            && InOrder(r1) + Post(c1) == after
            && [victim.node] + after == InOrder(t.right) + Post(c)
  {
    var victim := Leftmost(t.right);
    var spine := LeftSpine(InRight(c, t.left, t.node), t.right);
    var rest := RemoveEasy(spine, victim);
    after := SuccessorSplit(c, t);
    var before := Pre(c) + InOrder(t.left);
    RemoveEasyInOrder(spine, victim);
    assert InOrder(rest) == before + [t.node] + after;
    var whole := Plug(c, t);
    PlugInOrder(c, t);
    ConcatOut(Pre(c), InOrder(t.left), t.node, InOrder(t.right), Post(c));
    assert InOrder(whole) == (before + [t.node]) + [victim.node] + after;
    OneLess(whole, rest, before + [t.node], victim.node, after);
    DistinctThenNoDup(rest);
    InOrderHasNodes(rest, t.node);
    assert t.node in before + [t.node] + after;
    c1, l1, r1 := Locate(Top, rest, t.node);
    PlugInOrder(c1, Node(l1, t.node, r1));
    ConcatOut(Pre(c1), InOrder(l1), t.node, InOrder(r1), Post(c1));
    UniqueSplit(before, t.node, after, Pre(c1) + InOrder(l1), InOrder(r1) + Post(c1));
    ReplaceAt(c1, l1, t.node, r1, victim.node);
  }

  /** The removed node leaves the order, and nothing else moves. */
  lemma InOrderOf<N>(l: Tree<N>, n: N, r: Tree<N>)
    ensures InOrder(Node(l, n, r)) == InOrder(l) + [n] + InOrder(r)
  {
  }

  lemma RemoveIsEasy<N>(c: Ctx<N>, t: Tree<N>)
    requires t.Node? && (t.left.Leaf? || t.right.Leaf?)
    ensures Remove(c, t) == RemoveEasy(c, t)
  {
  }

  lemma RemoveInOrder<N>(c: Ctx<N>, t: Tree<N>)
    requires t.Node? && Distinct(Plug(c, t))
    ensures InOrder(Remove(c, t)) == (Pre(c) + InOrder(t.left)) + (InOrder(t.right) + Post(c))
  {
    hide *;
    if t.left.Leaf? || t.right.Leaf? {
      RemoveEasyInOrder(c, t);
      RemoveIsEasy(c, t);
      ConcatFour(Pre(c), InOrder(t.left), InOrder(t.right), Post(c));
    } else {
      var v := Leftmost(t.right).node;
      var c1, l1, r1, after := AfterSuccessorRemoved(c, t);
      PlugInOrder(c1, Node(l1, v, r1));
      InOrderOf(l1, v, r1);
      ConcatOut(Pre(c1), InOrder(l1), v, InOrder(r1), Post(c1));
      assert (Pre(c) + InOrder(t.left)) + [v] + after == (Pre(c) + InOrder(t.left)) + ([v] + after);
    }
  }

  /** Removing any node from a balanced tree leaves a balanced tree. */
  lemma RemoveBalanced<N>(c: Ctx<N>, t: Tree<N>)
    requires t.Node? && Balanced(Plug(c, t))
    ensures Balanced(Remove(c, t))
  {
    if t.left.Leaf? || t.right.Leaf? {
      RemoveEasyBalanced(c, t);
    } else {
      var victim := Leftmost(t.right);
      var spine := LeftSpine(InRight(c, t.left, t.node), t.right);
      LeftSpinePlug(InRight(c, t.left, t.node), t.right);
      RemoveEasyBalanced(spine, victim);
      ReplaceBalanced(RemoveEasy(spine, victim), t.node, victim.node);
    }
  }

  lemma RemoveDistinct<N>(c: Ctx<N>, t: Tree<N>)
    requires t.Node? && Distinct(Plug(c, t))
    ensures Distinct(Remove(c, t)) && Nodes(Remove(c, t)) == Nodes(Plug(c, t)) - {t.node}
  {
    PlugInOrder(c, t);
    ConcatOut(Pre(c), InOrder(t.left), t.node, InOrder(t.right), Post(c));
    RemoveInOrder(c, t);
    OneLess(Plug(c, t), Remove(c, t), Pre(c) + InOrder(t.left), t.node, InOrder(t.right) + Post(c));
  }
}
