/** The sorted set of shared/src/MRD_zset.cpp: the same node objects in an AVL tree ordered by score
    and name, and in a hash map keyed by name. */
module ZSets {
  import opened Bytes
  import opened Sequences
  import opened Shape
  import opened Avl
  import opened Walk
  import opened Order
  import opened Hash
  import opened HashTable
  import opened HashMaps

  ghost function ItemOf(n: ZNode): Item
    reads n`score
  {
    Item(n.score, n.name)
  }

  ghost function ItemsOf(s: seq<ZNode>): (r: seq<Item>)
    reads s`score
    ensures |r| == |s| && forall i :: 0 <= i < |s| ==> r[i] == ItemOf(s[i])
  {
    if s == [] then [] else [ItemOf(s[0])] + ItemsOf(s[1..])
  }

  lemma InOrderInNodes<N>(t: Tree<N>)
    ensures forall n :: n in InOrder(t) ==> n in Nodes(t)
  {
    forall n | n in InOrder(t) ensures n in Nodes(t) {
      InOrderHasNodes(t, n);
    }
  }

  /** What the tree lists, in order. */
  ghost function Listing(t: Tree<ZNode>): seq<Item>
    reads Nodes(t)`score
  {
    InOrderInNodes(t);
    ItemsOf(InOrder(t))
  }

  lemma ItemsOfConcat(a: seq<ZNode>, b: seq<ZNode>)
    ensures ItemsOf(a + b) == ItemsOf(a) + ItemsOf(b)
  {
  }

  lemma ListingSplit(t: Tree<ZNode>, a: seq<ZNode>, n: ZNode, b: seq<ZNode>)
    requires InOrder(t) == a + [n] + b
    ensures Listing(t) == ItemsOf(a) + [ItemOf(n)] + ItemsOf(b)
  {
    hide *;
    ListingIs(t);
    ItemsOfOne(n);
    ItemsOfConcat(a, [n]);
    ItemsOfConcat(a + [n], b);
  }

  lemma ListingIs(t: Tree<ZNode>)
    ensures Listing(t) == ItemsOf(InOrder(t))
  {
  }

  lemma ItemsOfOne(n: ZNode)
    ensures ItemsOf([n]) == [ItemOf(n)]
  {
  }

  lemma ItemsBeside(a: seq<ZNode>, x: Item, b: seq<ZNode>)
    requires forall n :: n in a ==> ZLess(ItemOf(n), x)
    requires forall n :: n in b ==> ZLess(x, ItemOf(n))
    ensures forall y :: y in ItemsOf(a) ==> ZLess(y, x)
    ensures forall y :: y in ItemsOf(b) ==> ZLess(x, y)
  {
    hide ZLess;
    forall y | y in ItemsOf(a) ensures ZLess(y, x) {
      var i :| 0 <= i < |a| && ItemsOf(a)[i] == y;
      assert a[i] in a;
    }
    forall y | y in ItemsOf(b) ensures ZLess(x, y) {
      var i :| 0 <= i < |b| && ItemsOf(b)[i] == y;
      assert b[i] in b;
    }
  }

  /** In a sorted tree the left subtree comes before the node and the right subtree after it. */
  lemma SortedAround(c: Ctx<ZNode>, t: Tree<ZNode>)
    requires t.Node? && Sorted(Listing(Plug(c, t)))
    ensures forall x :: x in InOrder(t.left) ==> ZLess(ItemOf(x), ItemOf(t.node))
    ensures forall x :: x in InOrder(t.right) ==> ZLess(ItemOf(t.node), ItemOf(x))
  {
    hide *;
    var s, whole := InOrder(Plug(c, t)), Listing(Plug(c, t));
    var l, r := InOrder(t.left), InOrder(t.right);
    PlugInOrder(c, t);
    InOrderOf(t.left, t.node, t.right);
    ListingAt(Plug(c, t));
    ConcatOut(Pre(c), l, t.node, r, Post(c));
    var i := |Pre(c)| + |l|;
    assert s[i] == t.node;
    forall j | 0 <= j < |l| ensures ZLess(ItemOf(l[j]), ItemOf(t.node)) {
      assert s[|Pre(c)| + j] == l[j];
      SortedAt(whole, |Pre(c)| + j, i);
    }
    forall j | 0 <= j < |r| ensures ZLess(ItemOf(t.node), ItemOf(r[j])) {
      assert s[i + 1 + j] == r[j];
      SortedAt(whole, i, i + 1 + j);
    }
  }

  lemma ListingAt(t: Tree<ZNode>)
    ensures |Listing(t)| == |InOrder(t)|
    ensures forall i :: 0 <= i < |InOrder(t)| ==> Listing(t)[i] == ItemOf(InOrder(t)[i])
  {
  }

  lemma RanksAreSorted(s: seq<Item>, m: map<Str, real>)
    requires Ranks(s, m)
    ensures Sorted(s)
  {
  }

  lemma SortedAt(s: seq<Item>, i: nat, j: nat)
    requires Sorted(s) && i < j < |s|
    ensures ZLess(s[i], s[j])
  {
  }

  /** The hash index and the tree hold the same nodes, under the names the nodes bear. */
  ghost predicate Indexed(index: map<(nat, Str), HNode<ZNode>>, nodes: set<ZNode>) {
    && (forall id :: id in index ==>
          id.0 == HashOf(id.1) && index[id].owner in nodes && index[id].owner.name == id.1)
    && (forall n :: n in nodes ==> (HashOf(n.name), n.name) in index && index[(HashOf(n.name), n.name)].owner == n)
  }

  lemma IndexedInsert(index: map<(nat, Str), HNode<ZNode>>, nodes: set<ZNode>, n: ZNode, h: HNode<ZNode>)
    requires Indexed(index, nodes) && (HashOf(n.name), n.name) !in index && h.owner == n
    ensures Indexed(index[(HashOf(n.name), n.name) := h], nodes + {n})
  {
  }

  lemma IndexedRemove(index: map<(nat, Str), HNode<ZNode>>, nodes: set<ZNode>, n: ZNode)
    requires Indexed(index, nodes) && n in nodes
    ensures (HashOf(n.name), n.name) in index
    ensures Indexed(index - {(HashOf(n.name), n.name)}, nodes - {n})
  {
  }

  /** The nodes of a ranked tree are the elements of the map. */
  lemma NodeRanked(t: Tree<ZNode>, n: ZNode, m: map<Str, real>)
    requires n in Nodes(t) && Ranks(Listing(t), m)
    ensures n.name in m && m[n.name] == n.score
  {
    InOrderHasNodes(t, n);
    var i :| 0 <= i < |InOrder(t)| && InOrder(t)[i] == n;
    assert Listing(t)[i] in Listing(t);
  }

  lemma RankedNode(t: Tree<ZNode>, name: Str, m: map<Str, real>) returns (n: ZNode)
    requires name in m && Ranks(Listing(t), m)
    ensures n in Nodes(t) && n.name == name && n.score == m[name]
  {
    var i :| 0 <= i < |Listing(t)| && Listing(t)[i] == Item(m[name], name);
    n := InOrder(t)[i];
    InOrderHasNodes(t, n);
  }

  /** The place of a new node, going left where it is less. */
  ghost function Place(c: Ctx<ZNode>, t: Tree<ZNode>, n: ZNode): Ctx<ZNode>
    reads Nodes(t)`score, n`score
    decreases t
  {
    if t.Leaf? then c
    else if ZLess(ItemOf(n), ItemOf(t.node)) then Place(InLeft(c, t.node, t.right), t.left, n)
    else Place(InRight(c, t.left, t.node), t.right, n)
  }

  /** The shape that a new node gives a tree. */
  ghost predicate GrownBy(before: Tree<ZNode>, after: Tree<ZNode>, n: ZNode)
    reads Nodes(before)`score, n`score
  {
    after == FixUp(Place(Top, before, n), Node(Leaf, n, Leaf))
  }

  class ZSet {
    var root: ZNode?
    const hmap: HashMap<ZNode>
    ghost var tree: Tree<ZNode>
    /** The map from names to scores that the set stands for. */
    ghost var contents: map<Str, real>
    ghost var Repr: set<object>

    ghost predicate Valid()
      reads this, Repr
      ensures Valid() ==> this in Repr
    {
      && this in Repr && hmap in Repr && hmap.Repr <= Repr && this !in hmap.Repr
      && Nodes(tree) <= Repr && Nodes(tree) !! hmap.Repr
      && hmap.Valid() && TreeOk()
      && Indexed(AsMap(hmap.Nodes()), Nodes(tree))
    }

    ghost predicate TreeOk()
      reads this`root, this`tree, this`contents, Nodes(tree)
    {
      && root == Root(tree) && Rep(tree, null)
      && Distinct(tree) && Balanced(tree)
      && Ranks(Listing(tree), contents)
    }

    lemma Sound()
      requires Valid()
      ensures TreeOk() && root == Root(tree) && Rep(tree, null) && Nodes(tree) <= Repr && Ranks(Listing(tree), contents)
    {
    }

    lemma Parts()
      requires Valid()
      ensures this in Repr && hmap in Repr && hmap.Repr <= Repr && this !in hmap.Repr && hmap.Valid()
      ensures Nodes(tree) <= Repr && Nodes(tree) !! hmap.Repr && hmap in hmap.Repr && TreeOk()
      ensures Unique(hmap.Nodes()) && Indexed(AsMap(hmap.Nodes()), Nodes(tree))
    {
      hmap.UniqueNodes();
      hide TreeOk;
    }

    lemma Whole()
      requires this in Repr && hmap in Repr && hmap.Repr <= Repr && this !in hmap.Repr && hmap.Valid()
      requires Nodes(tree) <= Repr && Nodes(tree) !! hmap.Repr && TreeOk()
      requires Unique(hmap.Nodes()) && Indexed(AsMap(hmap.Nodes()), Nodes(tree))
      ensures Valid()
    {
      hide TreeOk;
    }

    lemma TreeParts()
      requires TreeOk()
      ensures root == Root(tree) && Rep(tree, null) && Distinct(tree) && Balanced(tree) && Ranks(Listing(tree), contents)
    {
    }

    lemma TreeWhole()
      requires root == Root(tree) && Rep(tree, null) && Distinct(tree) && Balanced(tree)
      requires Ranks(Listing(tree), contents)
      ensures TreeOk()
    {
    }

    constructor ()
      ensures Valid() && fresh(Repr) && contents == map[] && tree == Leaf
    {
      root := null;
      hmap := new HashMap(128, 8);
      tree := Leaf;
      contents := map[];
      new;
      hide HashMap.Valid;
      hide AsMap;
      Repr := {this} + hmap.Repr;
    }

    // -------------------------------------------------------------- insertion into the tree

    /** Where a new node belongs: the walk of lines 115-119. */
    method FindPlace(node: ZNode) returns (parent: ZNode?, isLeft: bool, ghost c: Ctx<ZNode>)
      requires TreeOk() && node !in Nodes(tree) && node.name !in contents
      ensures Depth(c) <= Height(tree) && c == Place(Top, tree, node)
      ensures Plug(c, Leaf) == tree && parent == Up(c) && isLeft == c.InLeft?
      ensures forall x :: x in Pre(c) ==> ZLess(ItemOf(x), ItemOf(node))
      ensures forall x :: x in Post(c) ==> ZLess(ItemOf(node), ItemOf(x))
    {
      hide ZLess;
      hide Ranks;
      hide Listing;
      parent, isLeft, c := null, false, Top;
      var cur := root;
      ghost var t := tree;
      while cur != null
        invariant TreeOk() && Plug(c, t) == tree && parent == Up(c) && isLeft == c.InLeft?
        invariant cur == Root(t) && Rep(t, parent) && Place(c, t, node) == Place(Top, tree, node)
        invariant forall x :: x in Pre(c) ==> ZLess(ItemOf(x), ItemOf(node))
        invariant forall x :: x in Post(c) ==> ZLess(ItemOf(node), ItemOf(x))
        decreases t
      {
        parent := cur;
        isLeft := ZLess(Item(node.score, node.name), Item(parent.score, parent.name));
        Beside(c, t, node);
        if isLeft {
          cur := parent.left;
          c, t := InLeft(c, t.node, t.right), t.left;
        } else {
          cur := parent.right;
          c, t := InRight(c, t.left, t.node), t.right;
        }
      }
      PathIsShort(c, t);
    }

    /** Comparing with one node of a sorted tree decides for a whole side of it. */
    lemma Beside(c: Ctx<ZNode>, t: Tree<ZNode>, node: ZNode)
      requires TreeOk() && t.Node? && Plug(c, t) == tree && node.name !in contents
      ensures ZLess(ItemOf(node), ItemOf(t.node)) ==>
                forall x :: x in InOrder(t.right) ==> ZLess(ItemOf(node), ItemOf(x))
      ensures !ZLess(ItemOf(node), ItemOf(t.node)) ==> ZLess(ItemOf(t.node), ItemOf(node))
      ensures !ZLess(ItemOf(node), ItemOf(t.node)) ==>
                forall x :: x in InOrder(t.left) ==> ZLess(ItemOf(x), ItemOf(node))
    {
      SortedAround(c, t);
      AtIndex(c, t);
      assert ItemOf(t.node) in Listing(tree);
      ZLessTotal(ItemOf(node), ItemOf(t.node));
      forall x | x in InOrder(t.right) && ZLess(ItemOf(node), ItemOf(t.node)) ensures ZLess(ItemOf(node), ItemOf(x)) {
        ZLessTransitive(ItemOf(node), ItemOf(t.node), ItemOf(x));
      }
      forall x | x in InOrder(t.left) && ZLess(ItemOf(t.node), ItemOf(node)) ensures ZLess(ItemOf(x), ItemOf(node)) {
        ZLessTransitive(ItemOf(x), ItemOf(t.node), ItemOf(node));
      }
    }

    /** Lines 120-121: the new leaf is stored in the link the walk ended at. */
    method Hang(node: ZNode, parent: ZNode?, isLeft: bool, ghost c: Ctx<ZNode>)
      requires Plug(c, Leaf) == tree && parent == Up(c) && isLeft == c.InLeft?
      requires Rep(tree, null) && Distinct(tree)
      requires node !in Nodes(tree) && node.left == null && node.right == null
      modifies this`root, node`parent, Nodes(tree)`left, Nodes(tree)`right
      ensures Hangs(Node(Leaf, node, Leaf), node) && node.parent == Up(c)
      ensures RepCtx(c, Node(Leaf, node, Leaf), false) && Distinct(Plug(c, Node(Leaf, node, Leaf)))
    {
      hide *;
      ghost var t := Node(Leaf, node, Leaf);
      Focus(c, Leaf);
      PlugDistinct(c, Leaf);
      PlugDistinct(c, t);
      PlugNodes(c, Leaf);
      CtxAllocated(c);
      AtLeaf(c, node);
      if parent == null {
        root := node;
      } else if isLeft {
        parent.left := node;
      } else {
        parent.right := node;
      }
      node.parent := parent;
      Hung(c, node);
    }

    /** The subtree on the other side of a hole. */
    static ghost function Beyond(c: Ctx<ZNode>): Tree<ZNode>
      requires !c.Top?
    {
      if c.InLeft? then c.right else c.left
    }

    /** A hole, and what is around it. */
    static lemma AtLeaf(c: Ctx<ZNode>, node: ZNode)
      requires RepCtx(c, Leaf, true) && CtxDistinct(c)
      ensures Distinct(Node(Leaf, node, Leaf)) && Nodes(Node(Leaf, node, Leaf)) == {node}
      ensures Up(c) == if c.Top? then null else c.node
      ensures !c.Top? ==>
                && CtxNodes(c) == CtxNodes(c.up) + {c.node} + Nodes(Beyond(c))
                && c.node !in CtxNodes(c.up) && c.node !in Nodes(Beyond(c))
                && Rep(Beyond(c), c.node) && c.node.parent == Up(c.up)
                && RepCtx(c.up, OneUp(c, Node(Leaf, node, Leaf)), false)
                && (if c.InLeft? then c.node.right else c.node.left) == Root(Beyond(c))
    {
      if !c.Top? {
        Refill(c.up, OneUp(c, Leaf), OneUp(c, Node(Leaf, node, Leaf)), false);
      }
    }

    static lemma Hung(c: Ctx<ZNode>, node: ZNode)
      requires node.left == null && node.right == null
      requires !c.Top? ==>
                && Rep(Beyond(c), c.node) && c.node.parent == Up(c.up)
                && RepCtx(c.up, OneUp(c, Node(Leaf, node, Leaf)), false)
                && (if c.InLeft? then c.node.right else c.node.left) == Root(Beyond(c))
                && (if c.InLeft? then c.node.left else c.node.right) == node
      ensures Hangs(Node(Leaf, node, Leaf), node) && RepCtx(c, Node(Leaf, node, Leaf), false)
    {
    }

    method TreeInsert(node: ZNode)
      requires TreeOk() && node !in Nodes(tree) && node.name !in contents
      requires node.left == null && node.right == null
      modifies this`root, this`tree, this`contents
      modifies (Nodes(tree) + {node})`parent, (Nodes(tree) + {node})`left, (Nodes(tree) + {node})`right
      modifies (Nodes(tree) + {node})`height, (Nodes(tree) + {node})`count
      ensures TreeOk() && Nodes(tree) == old(Nodes(tree)) + {node}
      ensures contents == old(contents)[node.name := node.score]
      ensures GrownBy(old(tree), tree, node)
    {
      hide *;
      Allocated(tree);
      TreeParts();
      ghost var before, t := tree, Node(Leaf, node, Leaf);
      var parent, isLeft;
      ghost var c;
      parent, isLeft, c := FindPlace(node);
      ghost var a, b := RankingWith(before, node, c, contents);
      Inserted(before, node, c);
      Grown(node, c);
      Hang(node, parent, isLeft, c);
      ghost var steps;
      root, steps := Fix(node, c, t);
      ListingWith(before, node, c, a, b);
      tree := FixUp(c, t);
      contents := contents[node.name := node.score];
      TreeWhole();
      GrewTo(before, node, c);
    }

    static lemma GrewTo(before: Tree<ZNode>, node: ZNode, c: Ctx<ZNode>)
      requires c == Place(Top, before, node)
      ensures GrownBy(before, FixUp(c, Node(Leaf, node, Leaf)), node)
    {
    }

    lemma Grown(node: ZNode, c: Ctx<ZNode>)
      requires Plug(c, Leaf) == tree
      ensures Nodes(Plug(c, Node(Leaf, node, Leaf))) == Nodes(tree) + {node}
    {
      PlugNodes(c, Leaf);
      PlugNodes(c, Node(Leaf, node, Leaf));
    }


    static lemma NewLeaf(node: ZNode)
      ensures var leaf: Tree<ZNode> := Leaf;
              Height(leaf) == 0 && InOrder(leaf) == [] && Balanced(leaf)
      ensures var t := Node(Leaf, node, Leaf);
              InOrder(t) == [node] && Perturbed(t, 0)
    {
    }

    /** The shape that inserting a leaf ends in. */
    static lemma Inserted(before: Tree<ZNode>, node: ZNode, c: Ctx<ZNode>)
      requires Plug(c, Leaf) == before && node !in Nodes(before) && Distinct(before) && Balanced(before)
      ensures var after := FixUp(c, Node(Leaf, node, Leaf));
              && Distinct(after) && Balanced(after) && Nodes(after) == Nodes(before) + {node}
              && InOrder(before) == Pre(c) + Post(c) && InOrder(after) == Pre(c) + [node] + Post(c)
    {
      hide *;
      var t := Node(Leaf, node, Leaf);
      var after := FixUp(c, t);
      NewLeaf(node);
      PlugInOrder(c, Leaf);
      FixUpInOrder(c, t);
      PlugBalanced(c, Leaf);
      FixUpBalanced(c, t, 0);
      assert Pre(c) + [] + Post(c) == Pre(c) + Post(c);
      InOrderHasNodes(before, node);
      OneMore(before, after, Pre(c), node, Post(c));
    }

    static lemma ListingAround(before: Tree<ZNode>, node: ZNode, c: Ctx<ZNode>)
      requires Plug(c, Leaf) == before
      ensures Listing(before) == ItemsOf(Pre(c)) + ItemsOf(Post(c)) && |ItemsOf(Pre(c))| == |Pre(c)|
      ensures ItemOf(node) == Item(node.score, node.name)
    {
      PlugInOrder(c, Leaf);
      assert Pre(c) + [] + Post(c) == Pre(c) + Post(c);
      ItemsOfConcat(Pre(c), Post(c));
    }

    /** The ranking that inserting a leaf must end in, and where it splits. */
    static lemma RankingWith(before: Tree<ZNode>, node: ZNode, c: Ctx<ZNode>, m: map<Str, real>)
      returns (a: seq<Item>, b: seq<Item>)
      requires Plug(c, Leaf) == before && Ranks(Listing(before), m) && node.name !in m
      requires forall x :: x in Pre(c) ==> ZLess(ItemOf(x), ItemOf(node))
      requires forall x :: x in Post(c) ==> ZLess(ItemOf(node), ItemOf(x))
      ensures Listing(before) == a + b && |a| == |Pre(c)|
      ensures Ranks(a + [ItemOf(node)] + b, m[node.name := node.score])
    {
      hide *;
      a, b := ItemsOf(Pre(c)), ItemsOf(Post(c));
      ItemsBeside(Pre(c), ItemOf(node), Post(c));
      ListingAround(before, node, c);
      RanksInsert(a, ItemOf(node), b, m);
    }

    static lemma ListingWith(before: Tree<ZNode>, node: ZNode, c: Ctx<ZNode>, a: seq<Item>, b: seq<Item>)
      requires Plug(c, Leaf) == before && Listing(before) == a + b && |a| == |Pre(c)|
      ensures Listing(FixUp(c, Node(Leaf, node, Leaf))) == a + [ItemOf(node)] + b
    {
      var t := Node(Leaf, node, Leaf);
      PlugInOrder(c, Leaf);
      assert Pre(c) + [] + Post(c) == Pre(c) + Post(c);
      ItemsOfConcat(Pre(c), Post(c));
      FixUpInOrder(c, t);
      ListingSplit(FixUp(c, t), Pre(c), node, Post(c));
      assert ItemsOf(Pre(c)) == (a + b)[..|a|] && ItemsOf(Post(c)) == (a + b)[|a|..];
    }

    // -------------------------------------------------------------- removal from the tree

    method TreeRemove(node: ZNode)
      requires TreeOk() && node in Nodes(tree)
      modifies this`root, this`tree, this`contents
      modifies Nodes(tree)`parent, Nodes(tree)`left, Nodes(tree)`right, Nodes(tree)`height, Nodes(tree)`count
      ensures TreeOk() && Nodes(tree) == old(Nodes(tree)) - {node}
      ensures contents == old(contents) - {node.name}
    {
      hide Ranks;
      hide Listing;
      hide ItemsOf;
      hide Balanced;
      hide Rep;
      hide Distinct;
      hide Remove;
      Allocated(tree);
      ghost var before := tree;
      ghost var c, l, r := Locate(Top, tree, node);
      ghost var t := Node(l, node, r);
      ghost var a, b := RankingWithout(before, c, t, contents);
      RemoveBalanced(c, t);
      RemoveDistinct(c, t);
      root := Avl.Del(node, c, t);
      ListingWithout(before, c, t, a, b);
      tree := Remove(c, t);
      contents := contents - {node.name};
    }

    static lemma RankingWithout(before: Tree<ZNode>, c: Ctx<ZNode>, t: Tree<ZNode>, m: map<Str, real>)
      returns (a: seq<Item>, b: seq<Item>)
      requires t.Node? && Plug(c, t) == before && Ranks(Listing(before), m)
      ensures Listing(before) == a + [ItemOf(t.node)] + b && |a| == |Pre(c) + InOrder(t.left)|
      ensures Ranks(a + b, m - {t.node.name})
    {
      hide Ranks;
      var p, q := Pre(c) + InOrder(t.left), InOrder(t.right) + Post(c);
      a, b := ItemsOf(p), ItemsOf(q);
      PlugInOrder(c, t);
      ConcatOut(Pre(c), InOrder(t.left), t.node, InOrder(t.right), Post(c));
      ListingSplit(before, p, t.node, q);
      RanksRemove(a, ItemOf(t.node), b, m);
    }

    static lemma ListingWithout(before: Tree<ZNode>, c: Ctx<ZNode>, t: Tree<ZNode>, a: seq<Item>, b: seq<Item>)
      requires t.Node? && Plug(c, t) == before && Distinct(before)
      requires Listing(before) == a + [ItemOf(t.node)] + b && |a| == |Pre(c) + InOrder(t.left)|
      ensures Listing(Remove(c, t)) == a + b
    {
      var p, q := Pre(c) + InOrder(t.left), InOrder(t.right) + Post(c);
      PlugInOrder(c, t);
      ConcatOut(Pre(c), InOrder(t.left), t.node, InOrder(t.right), Post(c));
      ListingSplit(before, p, t.node, q);
      RemoveInOrder(c, t);
      ItemsOfConcat(p, q);
      UniqueParts(ItemsOf(p), ItemOf(t.node), ItemsOf(q), a, b);
    }

    // -------------------------------------------------------------- the operations

    /** The hash index finds exactly the names of the map. */
    lemma IndexedNames(name: Str)
      requires TreeOk() && Unique(hmap.Nodes()) && Indexed(AsMap(hmap.Nodes()), Nodes(tree))
      ensures var index, id := AsMap(hmap.Nodes()), (HashOf(name), name);
              if name in contents then
                && id in index && index[id].owner in Nodes(tree)
                && index[id].owner.name == name && index[id].owner.score == contents[name]
              else id !in index
      ensures tree.Leaf? ==> name !in contents
    {
      var index, id := AsMap(hmap.Nodes()), (HashOf(name), name);
      if name in contents {
        var n := RankedNode(tree, name, contents);
      }
      if id in index {
        NodeRanked(tree, index[id].owner, contents);
      }
    }

    method Lookup(name: Str) returns (node: ZNode?)
      requires Valid()
      ensures node == null <==> name !in contents
      ensures node != null ==> node in Nodes(tree) && node.name == name && node.score == contents[name]
    {
      hide TreeOk;
      hide HashMap.Valid;
      hide AsMap;
      hide Indexed;
      hmap.UniqueNodes();
      IndexedNames(name);
      RootOfTree();
      if root == null {
        return null;
      }
      var hcode := StrHash(name);
      var found := hmap.Lookup(hcode, name);
      node := if found == null then null else found.owner;
    }

    lemma RootOfTree()
      requires TreeOk()
      ensures root == null <==> tree.Leaf?
    {
    }

    method Del(node: ZNode)
      requires Valid() && node in Nodes(tree)
      modifies Repr
      ensures Valid() && Repr == old(Repr)
      ensures Nodes(tree) == old(Nodes(tree)) - {node} && contents == old(contents) - {node.name}
    {
      hide *;
      Parts();
      Allocated(tree);
      var hcode := StrHash(node.name);
      IndexedRemove(AsMap(hmap.Nodes()), Nodes(tree), node);
      var erased := hmap.Erase(hcode, node.name);
      TreeRemove(node);
      hmap.UniqueNodes();
      Whole();
    }

    method Rem(name: Str) returns (removed: bool)
      requires Valid()
      modifies Repr
      ensures Valid() && Repr == old(Repr)
      ensures removed <==> name in old(contents)
      ensures contents == old(contents) - {name}
    {
      hide ZSet.Valid;
      var node := Lookup(name);
      if node == null {
        return false;
      }
      Del(node);
      return true;
    }

    /** Moves a node to its place under a new score; the hash index is not touched. */
    method Update(node: ZNode, score: real)
      requires Valid() && node in Nodes(tree)
      modifies Repr
      ensures Valid() && Repr == old(Repr)
      ensures Nodes(tree) == old(Nodes(tree)) && contents == old(contents)[node.name := score]
    {
      hide *;
      Parts();
      Allocated(tree);
      ghost var nodes := Nodes(tree);
      TreeRemove(node);
      node.parent, node.left, node.right, node.height, node.count := null, null, null, 1, 1;
      node.score := score;
      TreeInsert(node);
      assert Nodes(tree) == nodes;
      Whole();
    }

    /** Lines 102-103: a new node enters the hash index. */
    method IndexNew(name: Str, score: real) returns (node: ZNode)
      requires Valid() && name !in contents
      modifies hmap.Repr
      ensures fresh(node) && node.name == name && node.score == score && node.left == null && node.right == null
      ensures hmap.Valid() && fresh(hmap.Repr - old(hmap.Repr)) && node !in hmap.Repr
      ensures Indexed(AsMap(hmap.Nodes()), Nodes(tree) + {node})
    {
      hide TreeOk;
      hide HashMap.Valid;
      hide Indexed;
      hide AsMap;
      hmap.UniqueNodes();
      IndexedNames(name);
      node := new ZNode(name, score);
      var hcode := StrHash(name);
      var h := new HNode<ZNode>(hcode, name, node);
      IndexedInsert(AsMap(hmap.Nodes()), Nodes(tree), node, h);
      hmap.Insert(h);
    }

    /** Lines 102-105: a new node enters both structures. */
    method InsertNew(name: Str, score: real)
      requires Valid() && name !in contents
      modifies Repr
      ensures Valid() && fresh(Repr - old(Repr))
      ensures contents == old(contents)[name := score]
      ensures exists n :: n in Nodes(tree) && n.name == name && GrownBy(old(tree), tree, n)
    {
      hide *;
      Parts();
      Allocated(tree);
      var node := IndexNew(name, score);
      TreeInsert(node);
      assert node in Nodes(tree) && node.name == name && GrownBy(old(tree), tree, node);
      Repr := Repr + hmap.Repr + {node};
      hmap.UniqueNodes();
      Whole();
    }

    method Insert(name: Str, score: real) returns (added: bool)
      requires Valid()
      modifies Repr
      ensures Valid() && fresh(Repr - old(Repr))
      ensures added <==> name !in old(contents)
      ensures contents == old(contents)[name := score]
      ensures added ==> exists n :: n in Nodes(tree) && n.name == name && GrownBy(old(tree), tree, n)
    {
      hide ZSet.Valid;
      hide GrownBy;
      var node := Lookup(name);
      if node != null {
        Update(node, score);
        return false;
      }
      InsertNew(name, score);
      return true;
    }

    // -------------------------------------------------------------- queries

    /** The loops that walk down from the root, and the climbs back, take at most twice the logarithm
        of the number of elements. */
    lemma PathsAreLogarithmic()
      requires TreeOk()
      ensures Pow2(Height(tree) / 2) <= |contents| + 1
    {
      LogarithmicHeight(tree);
      CountIsLength(tree);
      RanksSize(Listing(tree), contents);
    }

    /** Comparing one node with a key decides for a whole side of it. */
    lemma BesideKey(c: Ctx<ZNode>, t: Tree<ZNode>, key: Item)
      requires TreeOk() && t.Node? && Plug(c, t) == tree
      ensures ZLess(ItemOf(t.node), key) ==> forall x :: x in InOrder(t.left) ==> ZLess(ItemOf(x), key)
      ensures !ZLess(ItemOf(t.node), key) ==> forall x :: x in InOrder(t.right) ==> !ZLess(ItemOf(x), key)
      ensures ZGreater(ItemOf(t.node), key) ==> forall x :: x in InOrder(t.right) ==> ZGreater(ItemOf(x), key)
      ensures !ZGreater(ItemOf(t.node), key) ==> forall x :: x in InOrder(t.left) ==> !ZGreater(ItemOf(x), key)
    {
      hide ZLess;
      hide ZGreater;
      SortedAround(c, t);
      ZLessTotal(ItemOf(t.node), key);
      forall x | x in InOrder(t.left)
        ensures ZLess(ItemOf(t.node), key) ==> ZLess(ItemOf(x), key)
        ensures ZGreater(ItemOf(x), key) ==> ZGreater(ItemOf(t.node), key)
      {
        ZLessTotal(ItemOf(x), key);
        if ZLess(ItemOf(t.node), key) {
          ZLessTransitive(ItemOf(x), ItemOf(t.node), key);
        }
        if ZLess(key, ItemOf(x)) {
          ZLessTransitive(key, ItemOf(x), ItemOf(t.node));
        }
      }
      forall x | x in InOrder(t.right)
        ensures ZLess(ItemOf(x), key) ==> ZLess(ItemOf(t.node), key)
        ensures ZGreater(ItemOf(t.node), key) ==> ZGreater(ItemOf(x), key)
      {
        ZLessTotal(ItemOf(x), key);
        if ZLess(ItemOf(x), key) {
          ZLessTransitive(ItemOf(t.node), ItemOf(x), key);
        }
        if ZLess(key, ItemOf(t.node)) {
          ZLessTransitive(key, ItemOf(t.node), ItemOf(x));
        }
      }
    }

    /** Where the listing splits, the last node before and the first node after are its ends. */
    lemma Around(below: seq<ZNode>, above: seq<ZNode>)
      requires TreeOk() && InOrder(tree) == below + above
      ensures forall n :: n in Nodes(tree) <==> n in below || n in above
      ensures above != [] ==> forall n :: n in above && n != above[0] ==> ZLess(ItemOf(above[0]), ItemOf(n))
      ensures below != [] ==>
                forall n :: n in below && n != below[|below| - 1] ==> ZLess(ItemOf(n), ItemOf(below[|below| - 1]))
    {
      hide *;
      TreeParts();
      ListingAt(tree);
      var s, k := InOrder(tree), |below|;
      forall n ensures n in Nodes(tree) <==> n in below || n in above {
        InOrderHasNodes(tree, n);
      }
      RanksAreSorted(Listing(tree), contents);
      forall n | n in above && n != above[0] ensures ZLess(ItemOf(above[0]), ItemOf(n)) {
        var j :| 0 <= j < |above| && above[j] == n;
        assert s[k] == above[0] && s[k + j] == n;
        SortedAt(Listing(tree), k, k + j);
      }
      forall n | n in below && n != below[k - 1] ensures ZLess(ItemOf(n), ItemOf(below[k - 1])) {
        var j :| 0 <= j < k && below[j] == n;
        assert s[k - 1] == below[k - 1] && s[j] == n;
        SortedAt(Listing(tree), j, k - 1);
      }
    }

    /** `found` is the least node that is not less than the key, or there is none. */
    ghost predicate LeastNotLess(found: ZNode?, key: Item)
      reads this`tree, Nodes(tree)`score
    {
      if found == null then forall n :: n in Nodes(tree) ==> ZLess(ItemOf(n), key)
      else
        && found in Nodes(tree) && !ZLess(ItemOf(found), key)
        && forall n :: n in Nodes(tree) && n != found ==> ZLess(ItemOf(n), key) || ZLess(ItemOf(found), ItemOf(n))
    }

    /** `found` is the greatest node that is not greater than the key, or there is none. */
    ghost predicate GreatestNotGreater(found: ZNode?, key: Item)
      reads this`tree, Nodes(tree)`score
    {
      if found == null then forall n :: n in Nodes(tree) ==> ZGreater(ItemOf(n), key)
      else
        && found in Nodes(tree) && !ZGreater(ItemOf(found), key)
        && forall n :: n in Nodes(tree) && n != found ==> ZGreater(ItemOf(n), key) || ZLess(ItemOf(n), ItemOf(found))
    }

    lemma SplitsGe(below: seq<ZNode>, above: seq<ZNode>, key: Item)
      requires TreeOk() && InOrder(tree) == below + above
      requires forall x :: x in below ==> ZLess(ItemOf(x), key)
      requires forall x :: x in above ==> !ZLess(ItemOf(x), key)
      ensures LeastNotLess(if above == [] then null else above[0], key)
    {
      hide TreeOk;
      hide ZLess;
      assert above != [] ==> above[0] in above;
      Allocated(tree);
      Around(below, above);
    }

    lemma SplitsLe(below: seq<ZNode>, above: seq<ZNode>, key: Item)
      requires TreeOk() && InOrder(tree) == below + above
      requires forall x :: x in below ==> !ZGreater(ItemOf(x), key)
      requires forall x :: x in above ==> ZGreater(ItemOf(x), key)
      ensures GreatestNotGreater(if below == [] then null else below[|below| - 1], key)
    {
      hide TreeOk;
      hide ZLess;
      hide ZGreater;
      assert below != [] ==> below[|below| - 1] in below;
      Allocated(tree);
      Around(below, above);
    }

    /** The least node that is not less than the key: the first of those `above` the split. */
    method SeekGe(score: real, name: Str)
      returns (found: ZNode?, ghost below: seq<ZNode>, ghost above: seq<ZNode>, ghost steps: nat)
      requires TreeOk()
      ensures steps <= Height(tree)
      ensures InOrder(tree) == below + above
      ensures forall x :: x in below ==> ZLess(ItemOf(x), Item(score, name))
      ensures forall x :: x in above ==> !ZLess(ItemOf(x), Item(score, name))
      ensures found == if above == [] then null else above[0]
      ensures LeastNotLess(found, Item(score, name))
    {
      hide ZLess;
      hide ZGreater;
      hide Ranks;
      hide Listing;
      hide LeastNotLess;
      hide GreatestNotGreater;
      found := null;
      var node := root;
      ghost var c, t, key := Top, tree, Item(score, name);
      steps := 0;
      while node != null
        invariant steps == Depth(c)
        invariant TreeOk() && Plug(c, t) == tree && node == Root(t) && Rep(t, Up(c))
        invariant forall x :: x in Pre(c) ==> ZLess(ItemOf(x), key)
        invariant forall x :: x in Post(c) ==> !ZLess(ItemOf(x), key)
        invariant found == if Post(c) == [] then null else Post(c)[0]
        decreases t
      {
        BesideKey(c, t, key);
        steps := steps + 1;
        if ZLess(Item(node.score, node.name), Item(score, name)) {
          node := node.right;
          c, t := InRight(c, t.left, t.node), t.right;
        } else {
          found := node;
          node := node.left;
          c, t := InLeft(c, t.node, t.right), t.left;
        }
      }
      PathIsShort(c, t);
      below, above := Pre(c), Post(c);
      PlugInOrder(c, t);
      SplitsGe(below, above, key);
    }

    /** The greatest node that is not greater than the key: the last of those `below` the split. */
    method SeekLe(score: real, name: Str)
      returns (found: ZNode?, ghost below: seq<ZNode>, ghost above: seq<ZNode>, ghost steps: nat)
      requires TreeOk()
      ensures steps <= Height(tree)
      ensures InOrder(tree) == below + above
      ensures forall x :: x in below ==> !ZGreater(ItemOf(x), Item(score, name))
      ensures forall x :: x in above ==> ZGreater(ItemOf(x), Item(score, name))
      ensures found == if below == [] then null else below[|below| - 1]
      ensures GreatestNotGreater(found, Item(score, name))
    {
      hide ZLess;
      hide ZGreater;
      hide Ranks;
      hide Listing;
      hide LeastNotLess;
      hide GreatestNotGreater;
      found := null;
      var node := root;
      ghost var c, t, key := Top, tree, Item(score, name);
      steps := 0;
      while node != null
        invariant steps == Depth(c)
        invariant TreeOk() && Plug(c, t) == tree && node == Root(t) && Rep(t, Up(c))
        invariant forall x :: x in Pre(c) ==> !ZGreater(ItemOf(x), key)
        invariant forall x :: x in Post(c) ==> ZGreater(ItemOf(x), key)
        invariant found == if Pre(c) == [] then null else Pre(c)[|Pre(c)| - 1]
        decreases t
      {
        BesideKey(c, t, key);
        steps := steps + 1;
        if ZGreater(Item(node.score, node.name), Item(score, name)) {
          node := node.left;
          c, t := InLeft(c, t.node, t.right), t.left;
        } else {
          found := node;
          node := node.right;
          c, t := InRight(c, t.left, t.node), t.right;
        }
      }
      PathIsShort(c, t);
      below, above := Pre(c), Post(c);
      PlugInOrder(c, t);
      SplitsLe(below, above, key);
    }

    /** The node `offset` places after `node`, which stands at place `i`. */
    method Offset(node: ZNode?, offset: int, ghost i: nat) returns (r: ZNode?)
      requires TreeOk() && (node != null ==> i < |InOrder(tree)| && InOrder(tree)[i] == node)
      ensures var s := InOrder(tree);
              r == if node != null && 0 <= i + offset < |s| then s[i + offset] else null
    {
      if node == null {
        return null;
      }
      InOrderInNodes(tree);
      ghost var c, l, r0 := Locate(Top, tree, node);
      ghost var t := Node(l, node, r0);
      AtIndex(c, t);
      DistinctThenNoDup(tree);
      assert Index(c, t) == i;
      ghost var steps;
      r, steps := Walk.Offset(node, offset, c, t);
    }

    /** The rank that the server reports, with the place it was computed from (`Walk.RankMeaning`). */
    method Rank(name: Str) returns (rank: int, ghost c: Ctx<ZNode>, ghost t: Tree<ZNode>)
      requires Valid()
      ensures name !in contents ==> rank == 0
      ensures name in contents ==>
                && t.Node? && Plug(c, t) == tree && ItemOf(t.node) == Item(contents[name], name)
                && rank == Index(c, t) + 1 - |Pre(RunCtx(c))|
    {
      var node := Lookup(name);
      if node == null {
        return 0, Top, Leaf;
      }
      ghost var l, r;
      c, l, r := Locate(Top, tree, node);
      t := Node(l, node, r);
      rank := Walk.Rank(node, c, t);
    }
  }

  // ---------------------------------------------------------------- copying

  /** The items of a tree, parents first. */
  ghost function PreItems(t: Tree<ZNode>): seq<Item>
    reads Nodes(t)`score
  {
    if t.Leaf? then [] else [ItemOf(t.node)] + PreItems(t.left) + PreItems(t.right)
  }

  /** The map after storing the items of `s` one by one. */
  ghost function Load(m: map<Str, real>, s: seq<Item>): map<Str, real>
    decreases |s|
  {
    if s == [] then m else Load(m[s[0].name := s[0].score], s[1..])
  }

  lemma {:induction false} LoadConcat(m: map<Str, real>, a: seq<Item>, b: seq<Item>)
    ensures Load(m, a + b) == Load(Load(m, a), b)
    decreases |a|
  {
    if a == [] {
      assert a + b == b;
    } else {
      assert (a + b)[1..] == a[1..] + b;
      LoadConcat(m[a[0].name := a[0].score], a[1..], b);
    }
  }

  lemma LoadNothing(m: map<Str, real>)
    ensures Load(m, []) == m
  {
  }

  lemma LoadOne(m: map<Str, real>, x: Item)
    ensures Load(m, [x]) == m[x.name := x.score]
  {
  }

  /** Storing items of `m`, in any order and however often, stays within `m` and reaches them all. */
  lemma {:induction false} LoadWithin(m0: map<Str, real>, s: seq<Item>, m: map<Str, real>)
    requires forall k :: k in m0 ==> k in m && m0[k] == m[k]
    requires forall x :: x in s ==> x.name in m && m[x.name] == x.score
    ensures forall k :: k in Load(m0, s) ==> k in m && Load(m0, s)[k] == m[k]
    ensures forall k :: k in m0 ==> k in Load(m0, s)
    ensures forall x :: x in s ==> x.name in Load(m0, s)
    decreases |s|
  {
    if s != [] {
      assert s[0] in s;
      LoadWithin(m0[s[0].name := s[0].score], s[1..], m);
    }
  }

  lemma {:induction false} PreItemsAreNodes(t: Tree<ZNode>)
    ensures forall n :: n in Nodes(t) ==> ItemOf(n) in PreItems(t)
    ensures forall x :: x in PreItems(t) ==> exists n :: n in Nodes(t) && ItemOf(n) == x
  {
    if t.Node? {
      PreItemsAreNodes(t.left);
      PreItemsAreNodes(t.right);
    }
  }

  /** Inserts every node of a tree into another set, parents first. */
  method SetCpy(node: ZNode?, dst: ZSet, ghost t: Tree<ZNode>, ghost p: ZNode?)
    requires dst.Valid() && node == Root(t) && Rep(t, p) && Nodes(t) !! dst.Repr
    modifies dst.Repr
    ensures dst.Valid() && fresh(dst.Repr - old(dst.Repr))
    ensures dst.contents == Load(old(dst.contents), PreItems(t))
    decreases t
  {
    hide ZSet.Valid;
    hide GrownBy;
    hide Load;
    if node == null {
      LoadNothing(dst.contents);
      return;
    }
    ghost var x, a, b := ItemOf(node), PreItems(t.left), PreItems(t.right);
    LoadConcat(dst.contents, [x] + a, b);
    LoadConcat(dst.contents, [x], a);
    LoadOne(dst.contents, x);
    Allocated(t.left);
    Allocated(t.right);
    var added := dst.Insert(node.name, node.score);
    SetCpy(node.left, dst, t.left, node);
    SetCpy(node.right, dst, t.right, node);
  }

  lemma LoadsAll(t: Tree<ZNode>, m: map<Str, real>)
    requires Ranks(Listing(t), m)
    ensures Load(map[], PreItems(t)) == m
  {
    PreItemsAreNodes(t);
    forall x | x in PreItems(t) ensures x.name in m && m[x.name] == x.score {
      var n :| n in Nodes(t) && ItemOf(n) == x;
      NodeRanked(t, n, m);
    }
    LoadWithin(map[], PreItems(t), m);
    forall k | k in m ensures k in Load(map[], PreItems(t)) {
      var n := RankedNode(t, k, m);
      assert ItemOf(n) in PreItems(t);
    }
  }

  /** A copy stands for the same map and lists the same sequence, whatever shape its tree has. */
  method Copy(rhs: ZSet) returns (z: ZSet)
    requires rhs.Valid()
    ensures z.Valid() && fresh(z.Repr) && z.contents == rhs.contents && Listing(z.tree) == Listing(rhs.tree)
  {
    hide ZSet.Valid;
    hide ZSet.TreeOk;
    hide Ranks;
    hide Rep;
    rhs.Sound();
    LoadsAll(rhs.tree, rhs.contents);
    Allocated(rhs.tree);
    z := new ZSet();
    SetCpy(rhs.root, z, rhs.tree, null);
    z.Sound();
    RankingUnique(Listing(z.tree), Listing(rhs.tree), rhs.contents);
  }
}
