/** One chained table of shared/src/MRD_hashtable.cpp: an array of slots, each the head of a list
    linked through the nodes themselves. */
module HashTable {
  import opened Bytes
  import opened Sequences

  /** The hash node embedded in a payload. `key` is what the comparison callbacks reach through
      container_of, and `owner` is the embedding object. */
  class HNode<T> {
    var next: HNode?<T>
    const hcode: nat
    const key: Str
    const owner: T

    constructor (hcode: nat, key: Str, owner: T)
      ensures this.hcode == hcode && this.key == key && this.owner == owner && next == null
    {
      this.hcode, this.key, this.owner := hcode, key, owner;
      next := null;
    }
  }

  /** The bitwise `a & b` of unsigned integers. */
  function BitAnd(a: nat, b: nat): (r: nat)
    ensures r <= b
  {
    if a == 0 || b == 0 then 0 else (a % 2) * (b % 2) + 2 * BitAnd(a / 2, b / 2)
  }

  /** With the mask of a table of a power of two slots, the slot is the remainder of the hash code. */
  lemma {:induction false} MaskIsRemainder(h: nat, k: nat)
    ensures BitAnd(h, Pow2(k) - 1) == h % Pow2(k)
  {
    if k > 0 {
      var p := Pow2(k - 1);
      MaskIsRemainder(h / 2, k - 1);
      assert (2 * p - 1) / 2 == p - 1 && (2 * p - 1) % 2 == 1;
      RemainderOfDouble(h, p);
      if h == 0 {
        assert h / 2 == 0;
      }
    }
  }

  lemma RemainderOfDouble(h: nat, p: nat)
    requires p > 0
    ensures h % (2 * p) == h % 2 + 2 * (h / 2 % p)
  {
    var q, r := h / 2 / p, h / 2 % p;
    assert h / 2 == q * p + r && h == 2 * (h / 2) + h % 2;
    var low := h % 2 + 2 * r;
    assert h == q * (2 * p) + low && 0 <= low < 2 * p;
    Remainder(h, 2 * p, q, low);
  }

  lemma Remainder(h: nat, d: nat, q: nat, r: nat)
    requires d > 0 && h == q * d + r && r < d
    ensures h % d == r
  {
    var q', r' := h / d, h % d;
    Distributes(q - q', q', d);
    assert h == q' * d + r' && (q - q') * d == r' - r;
    if q > q' {
      AtLeastOnce(q - q', d);
    } else if q < q' {
      AtLeastOnce(q' - q, d);
      Distributes(q' - q, q, d);
    }
  }

  lemma Distributes(a: int, b: int, d: int)
    ensures (a + b) * d == a * d + b * d
  {
  }

  lemma AtLeastOnce(n: nat, d: nat)
    requires n > 0
    ensures n * d >= d
  {
    Distributes(n - 1, 1, d);
    assert (n - 1) * d >= 0;
  }

  /** A link that can lead to a node: a slot of the table or the `next` field of another node. */
  datatype Link<T> = NoLink | Slot(pos: nat) | NextOf(node: HNode<T>)

  ghost predicate Matches<T>(n: HNode<T>, hcode: nat, key: Str) {
    n.hcode == hcode && n.key == key
  }

  class HTab<T> {
    var tab: array?<HNode?<T>>
    var mask: nat
    var size: nat
    ghost var chains: seq<seq<HNode<T>>>
    ghost var nodes: set<HNode<T>>

    static ghost function At(s: seq<HNode<T>>, j: nat): HNode?<T> {
      if j < |s| then s[j] else null
    }

    /** The list that starts at `head` is exactly `s`. */
    static ghost predicate ChainOk(head: HNode?<T>, s: seq<HNode<T>>)
      reads s
    {
      && head == At(s, 0)
      && (forall j: nat :: j < |s| ==> s[j].next == At(s, j + 1))
      && NoDup(s)
    }

    static lemma Prepended(node: HNode<T>, s: seq<HNode<T>>)
      requires ChainOk(node.next, s) && node !in s
      ensures ChainOk(node, [node] + s)
    {
      var s' := [node] + s;
      forall j: nat | j < |s'| ensures s'[j].next == At(s', j + 1) {
        if j > 0 {
          assert s'[j] == s[j - 1];
        }
      }
    }

    /** Redirecting the one link into position `k` past it removes that position from the list. */
    static lemma Spliced(head: HNode?<T>, s: seq<HNode<T>>, k: nat)
      requires k < |s| && NoDup(s)
      requires forall j: nat :: j < |s| && j + 1 != k ==> s[j].next == At(s, j + 1)
      requires if k == 0 then head == At(s, 1) else head == s[0] && s[k - 1].next == At(s, k + 1)
      ensures ChainOk(head, s[..k] + s[k + 1..])
    {
      var s' := s[..k] + s[k + 1..];
      forall j: nat | j < |s'| ensures s'[j].next == At(s', j + 1) {
        assert s'[j] == if j < k then s[j] else s[j + 1];
      }
    }

    /** Each node stands in the list of the slot its hash code selects, and nowhere else. */
    static ghost predicate Slotted(chains: seq<seq<HNode<T>>>, nodes: set<HNode<T>>, mask: nat) {
      && |chains| == mask + 1
      && (forall i, n :: 0 <= i < |chains| && n in chains[i] ==> n in nodes && BitAnd(n.hcode, mask) == i)
      && (forall n :: n in nodes ==> n in chains[BitAnd(n.hcode, mask)])
    }

    static lemma SlottedInsert(chains: seq<seq<HNode<T>>>, nodes: set<HNode<T>>, mask: nat, node: HNode<T>)
      requires Slotted(chains, nodes, mask)
      ensures var pos := BitAnd(node.hcode, mask);
              Slotted(chains[pos := [node] + chains[pos]], nodes + {node}, mask)
    {
    }

    static lemma SlottedRemove(chains: seq<seq<HNode<T>>>, nodes: set<HNode<T>>, mask: nat, pos: nat, k: nat)
      requires Slotted(chains, nodes, mask) && pos < |chains| && k < |chains[pos]| && NoDup(chains[pos])
      ensures var s := chains[pos];
              Slotted(chains[pos := s[..k] + s[k + 1..]], nodes - {s[k]}, mask)
    {
      var s, n := chains[pos], chains[pos][k];
      var s' := s[..k] + s[k + 1..];
      var chains' := chains[pos := s'];
      assert n in s && BitAnd(n.hcode, mask) == pos;
      forall m | m in s ensures m in s' <==> m != n {
        var j :| 0 <= j < |s| && s[j] == m;
        if j < k {
          assert s'[j] == m;
        } else if j > k {
          assert s'[j - 1] == m;
        }
      }
      forall m | m in s' ensures m in s && m != n {
        var j :| 0 <= j < |s'| && s'[j] == m;
        assert m == if j < k then s[j] else s[j + 1];
      }
    }

    ghost predicate Valid()
      reads this, tab, nodes
    {
      && (tab == null ==> mask == 0 && nodes == {})
      && (tab != null ==>
            && tab.Length == mask + 1
            && Slotted(chains, nodes, mask)
            && (forall i :: 0 <= i < |chains| ==> ChainOk(tab[i], chains[i])))
      && size == |nodes|
    }

    /** The zombie table of the default constructor. */
    constructor ()
      ensures Valid() && tab == null && nodes == {} && size == 0
    {
      tab, mask, size := null, 0, 0;
      chains, nodes := [], {};
    }

    method Init(n: nat)
      requires n > 0
      modifies this
      ensures Valid() && tab != null && fresh(tab) && tab.Length == n && mask == n - 1 && nodes == {}
    {
      tab := new HNode?<T>[n](_ => null);
      mask := n - 1;
      size := 0;
      nodes := {};
      chains := seq(n, _ => []);
    }

    lemma Shape()
      requires Valid()
      ensures size == |nodes| && (tab != null ==> tab.Length == mask + 1)
    {
    }

    lemma Unset()
      requires Valid() && tab == null
      ensures nodes == {} && mask == 0 && size == 0
    {
    }

    method Clear()
      modifies this
      ensures Valid() && tab == null && nodes == {}
    {
      tab, mask, size := null, 0, 0;
      chains, nodes := [], {};
    }

    method Insert(node: HNode<T>)
      requires Valid() && tab != null && node !in nodes
      modifies this`size, this`chains, this`nodes, tab, node`next
      ensures Valid() && nodes == old(nodes) + {node} && size == old(size) + 1
      ensures var pos := BitAnd(node.hcode, mask);
              pos < |old(chains)| && chains == old(chains)[pos := [node] + old(chains)[pos]]
    {
      hide *;
      Parts();
      var pos := BitAnd(node.hcode, mask);
      ghost var s := chains[pos];
      SlottedInsert(chains, nodes, mask, node);
      NodesOfChains(node);
      var next := tab[pos];
      node.next := next;
      tab[pos] := node;
      size := size + 1;
      chains := chains[pos := [node] + s];
      nodes := nodes + {node};
      Prepended(node, s);
      forall i | 0 <= i < |chains| ensures ChainOk(tab[i], chains[i]) {
        assert i != pos ==> old(ChainOk(tab[i], chains[i]));
      }
      Whole();
    }

    /** What `Valid` says of a table that is there. */
    lemma Parts()
      requires Valid() && tab != null
      ensures tab.Length == mask + 1 == |chains| && size == |nodes|
      ensures Slotted(chains, nodes, mask) && forall i :: 0 <= i < |chains| ==> ChainOk(tab[i], chains[i])
      ensures forall h: nat :: BitAnd(h, mask) <= mask
    {
    }

    lemma Whole()
      requires tab != null && tab.Length == mask + 1 == |chains| && size == |nodes|
      requires Slotted(chains, nodes, mask) && forall i :: 0 <= i < |chains| ==> ChainOk(tab[i], chains[i])
      ensures Valid()
    {
    }

    lemma NodesOfChains(node: HNode<T>)
      requires Slotted(chains, nodes, mask) && node !in nodes
      ensures forall i :: 0 <= i < |chains| ==> node !in chains[i]
    {
    }

    /** What `Valid` says of one chain. */
    lemma ChainFacts(i: nat)
      requires Valid() && tab != null && i < |chains|
      ensures i < tab.Length && tab[i] == At(chains[i], 0) && NoDup(chains[i])
      ensures forall j :: 0 <= j < |chains[i]| ==> chains[i][j].next == At(chains[i], j + 1)
      ensures forall m :: m in chains[i] ==> m in nodes && BitAnd(m.hcode, mask) == i
    {
      assert ChainOk(tab[i], chains[i]);
    }

    /** What `Valid` says of one node. */
    lemma NodeFacts(n: HNode<T>)
      requires Valid() && n in nodes
      ensures tab != null && BitAnd(n.hcode, mask) < |chains| == tab.Length && n in chains[BitAnd(n.hcode, mask)]
    {
    }

    lemma SameIndex(s: seq<HNode<T>>, i: nat, k: nat)
      requires NoDup(s) && i < |s| && k < |s| && s[i] == s[k]
      ensures i == k
    {
    }

    lemma AtIs(s: seq<HNode<T>>, j: nat)
      ensures At(s, j) == if j < |s| then s[j] else null
    {
    }

    /** The node that a link leads to. */
    ghost function Target(from: Link<T>): HNode?<T>
      requires from.Slot? ==> tab != null && from.pos < tab.Length
      reads this, tab, if from.NextOf? then {from.node} else {}
    {
      match from
      case NoLink => null
      case Slot(pos) => tab[pos]
      case NextOf(node) => node.next
    }

    /** `from` is the incoming link of `n`, the only one there is. */
    ghost predicate LeadsTo(from: Link<T>, n: HNode<T>)
      reads this, tab, if from.NextOf? then {from.node} else {}
    {
      && !from.NoLink? && (from.NextOf? ==> from.node in nodes)
      && (from.Slot? ==> tab != null && from.pos < tab.Length) && Target(from) == n
    }

    /** The incoming link of the node with this hash code and key, if there is such a node. */
    method Lookup(hcode: nat, key: Str) returns (from: Link<T>, found: HNode?<T>)
      requires Valid()
      ensures found == null ==> from.NoLink? && forall n :: n in nodes ==> !Matches(n, hcode, key)
      ensures found != null ==> found in nodes && Matches(found, hcode, key) && LeadsTo(from, found)
    {
      if tab == null {
        return NoLink, null;
      }
      var pos := BitAnd(hcode, mask);
      from := Slot(pos);
      var cur := tab[pos];
      ghost var s, k := chains[pos], 0;
      assert ChainOk(tab[pos], s);
      while cur != null
        invariant k <= |s| && cur == At(s, k)
        invariant cur != null ==> LeadsTo(from, cur)
        invariant forall j :: 0 <= j < k ==> !Matches(s[j], hcode, key)
        decreases |s| - k
      {
        if cur.hcode == hcode && cur.key == key {
          return from, cur;
        }
        assert s[k].next == At(s, k + 1);
        from := NextOf(cur);
        cur := cur.next;
        k := k + 1;
      }
      from, found := NoLink, null;
    }

    /** Stores the successor of `n` in the link that led to `n`. */
    method Bypass(from: Link<T>, ghost n: HNode<T>, ghost pos: nat, ghost k: nat) returns (node: HNode<T>)
      requires Valid() && n in nodes && LeadsTo(from, n)
      requires pos == BitAnd(n.hcode, mask) && k < |chains[pos]| && chains[pos][k] == n
      modifies tab, (if from.NextOf? then {from.node} else {})`next
      ensures forall i :: 0 <= i < tab.Length && old(tab[i]) == null ==> tab[i] == null
      ensures node == n && ChainOk(tab[pos], chains[pos][..k] + chains[pos][k + 1..])
      ensures forall i :: 0 <= i < |chains| && i != pos ==> ChainOk(tab[i], chains[i])
    {
      ghost var s := chains[pos];
      assert ChainOk(tab[pos], s) && s[k].next == At(s, k + 1);
      IncomingLink(from, n, k);
      assert from.NextOf? ==> from.node in s && forall i :: 0 <= i < |chains| && i != pos ==> from.node !in chains[i];
      match from {
        case Slot(p) =>
          node := tab[p];
          tab[p] := node.next;
        case NextOf(p) =>
          node := p.next;
          p.next := node.next;
      }
      Spliced(tab[pos], s, k);
      forall i | 0 <= i < |chains| && i != pos ensures ChainOk(tab[i], chains[i]) {
        assert from.NextOf? ==> from.node !in chains[i];
        assert old(ChainOk(tab[i], chains[i]));
      }
    }

    /** Unlinks the node that `from` leads to. */
    method Detach(from: Link<T>, ghost n: HNode<T>) returns (node: HNode<T>)
      requires Valid() && n in nodes && LeadsTo(from, n)
      modifies this`size, this`chains, this`nodes, tab, (if from.NextOf? then {from.node} else {})`next
      ensures node == n && Valid() && nodes == old(nodes) - {n} && size == old(size) - 1
      ensures forall i :: 0 <= i < tab.Length && old(tab[i]) == null ==> tab[i] == null
    {
      hide Slotted;
      hide ChainOk;
      hide NoDup;
      ghost var pos, k := Position(n);
      ghost var s := chains[pos];
      ghost var s' := s[..k] + s[k + 1..];
      SlottedRemove(chains, nodes, mask, pos, k);
      node := Bypass(from, n, pos, k);
      size := size - 1;
      nodes := nodes - {n};
      chains := chains[pos := s'];
      forall i | 0 <= i < |chains| ensures ChainOk(tab[i], chains[i]) {
        if i == pos {
          assert chains[i] == s';
        }
      }
    }

    /** Where a node of the table stands. */
    lemma Position(n: HNode<T>) returns (pos: nat, k: nat)
      requires Valid() && n in nodes
      ensures pos == BitAnd(n.hcode, mask) && tab != null && pos < |chains| == tab.Length
      ensures k < |chains[pos]| && chains[pos][k] == n && NoDup(chains[pos])
    {
      pos := BitAnd(n.hcode, mask);
      assert ChainOk(tab[pos], chains[pos]);
      k :| 0 <= k < |chains[pos]| && chains[pos][k] == n;
    }

    /** `Lookup` followed by `Detach` of what it found. */
    method Erase(hcode: nat, key: Str) returns (erased: HNode?<T>)
      requires Valid()
      modifies this`size, this`chains, this`nodes, tab, nodes`next
      ensures Valid() && size == old(size) - (if erased != null then 1 else 0)
      ensures erased == null ==> nodes == old(nodes) && forall n :: n in nodes ==> !Matches(n, hcode, key)
      ensures erased != null ==>
                erased in old(nodes) && Matches(erased, hcode, key) && nodes == old(nodes) - {erased}
      ensures tab != null ==> forall i :: 0 <= i < tab.Length && old(tab[i]) == null ==> tab[i] == null
    {
      hide HTab.Valid;
      var from;
      from, erased := Lookup(hcode, key);
      if erased != null {
        erased := Detach(from, erased);
      }
    }

    /** A link that leads to the node at position `k` of its list is the one just before it. */
    lemma IncomingLink(from: Link<T>, n: HNode<T>, k: nat)
      requires Valid() && n in nodes && LeadsTo(from, n)
      requires var s := chains[BitAnd(n.hcode, mask)]; k < |s| && s[k] == n
      ensures from.Slot? ==> from.pos == BitAnd(n.hcode, mask) && k == 0
      ensures from.NextOf? ==> k > 0 && chains[BitAnd(n.hcode, mask)][k - 1] == from.node
    {
      hide *;
      NodeFacts(n);
      var pos := BitAnd(n.hcode, mask);
      ChainFacts(pos);
      LinkIs(from, n);
      match from {
        case Slot(p) =>
          ChainFacts(p);
          AtIs(chains[p], 0);
          SameIndex(chains[pos], 0, k);
        case NextOf(p) =>
          NodeFacts(p);
          var q := BitAnd(p.hcode, mask);
          ChainFacts(q);
          var j :| 0 <= j < |chains[q]| && chains[q][j] == p;
          AtIs(chains[q], j + 1);
          SameIndex(chains[pos], j + 1, k);
      }
    }

    lemma LinkIs(from: Link<T>, n: HNode<T>)
      requires Valid() && LeadsTo(from, n)
      ensures !from.NoLink? && (from.NextOf? ==> from.node in nodes && from.node.next == n)
      ensures from.Slot? ==> tab != null && from.pos < tab.Length == |chains| && tab[from.pos] == n
    {
    }

    /** Lines 69-73: one chain; `f` decides whether to go on. */
    method VisitChain(f: HNode<T> -> bool, i: nat) returns (all: bool, ghost visited: seq<HNode<T>>)
      requires Valid() && tab != null && i < tab.Length
      ensures visited <= chains[i]
      ensures all ==> visited == chains[i] && forall n :: n in visited ==> f(n)
      ensures !all ==> visited != [] && !f(visited[|visited| - 1])
      ensures !all ==> forall j :: 0 <= j < |visited| - 1 ==> f(visited[j])
    {
      ghost var s, k := chains[i], 0;
      assert ChainOk(tab[i], s);
      visited := [];
      var node := tab[i];
      while node != null
        invariant k <= |s| && node == At(s, k) && visited == s[..k]
        invariant forall j :: 0 <= j < k ==> f(s[j])
        decreases |s| - k
      {
        assert s[..k + 1] == s[..k] + [s[k]];
        visited := visited + [node];
        if !f(node) {
          return false, visited;
        }
        assert s[k].next == At(s, k + 1);
        node := node.next;
        k := k + 1;
      }
      assert s[..k] == s;
      all := true;
    }

    /** The nodes of the first `i` slots. */
    ghost predicate InFirst(n: HNode<T>, i: nat)
      reads this`mask
    {
      BitAnd(n.hcode, mask) < i
    }

    lemma NextChain(visited: seq<HNode<T>>, more: seq<HNode<T>>, i: nat)
      requires Valid() && tab != null && i < tab.Length && more <= chains[i]
      requires NoDup(visited) && forall n :: n in visited ==> n in nodes && InFirst(n, i)
      ensures NoDup(visited + more) && forall n :: n in visited + more ==> n in nodes && InFirst(n, i + 1)
      ensures more == chains[i] ==>
                (forall n :: n in nodes && InFirst(n, i) ==> n in visited) ==>
                forall n :: n in nodes && InFirst(n, i + 1) ==> n in visited + more
    {
      hide *;
      Parts();
      ChainFacts(i);
      FirstMore(i);
      var s := chains[i];
      assert s == more + s[|more|..];
      NoDupParts(more, s[|more|..]);
      forall n | n in more ensures n in nodes && BitAnd(n.hcode, mask) == i {
        assert n in s;
      }
      NoDupConcat(visited, more);
    }

    /** Between the first `i` and the first `i + 1` slots lies one chain. */
    lemma FirstMore(i: nat)
      requires Valid() && tab != null && i < |chains|
      ensures forall n: HNode<T> :: InFirst(n, i + 1) <==> InFirst(n, i) || BitAnd(n.hcode, mask) == i
      ensures forall n: HNode<T> :: InFirst(n, i) ==> BitAnd(n.hcode, mask) != i
      ensures forall n :: n in nodes && BitAnd(n.hcode, mask) == i ==> n in chains[i]
    {
    }

    /** Visits the nodes one by one as long as `f` agrees, but none at all in a table of one slot. */
    method ForEach(f: HNode<T> -> bool) returns (all: bool, ghost visited: seq<HNode<T>>)
      requires Valid()
      ensures NoDup(visited) && forall n :: n in visited ==> n in nodes
      ensures mask == 0 ==> all && visited == []
      ensures all <==> mask == 0 || forall n :: n in nodes ==> f(n)
      ensures mask != 0 && all ==> forall n :: n in nodes ==> n in visited
      ensures if all then forall n :: n in visited ==> f(n)
              else visited != [] && !f(visited[|visited| - 1]) && forall j :: 0 <= j < |visited| - 1 ==> f(visited[j])
    {
      visited := [];
      var i := 0;
      while mask != 0 && i <= mask
        invariant i <= mask + 1 && (mask == 0 ==> visited == [])
        invariant NoDup(visited) && forall n :: n in visited ==> n in nodes && InFirst(n, i)
        invariant forall n :: n in visited ==> f(n)
        invariant forall n :: n in nodes && InFirst(n, i) ==> n in visited
      {
        ghost var more;
        all, more := VisitChain(f, i);
        NextChain(visited, more, i);
        visited := visited + more;
        if !all {
          return;
        }
        i := i + 1;
      }
      AllInFirst();
      all := true;
    }

    lemma AllInFirst()
      requires Valid()
      ensures tab != null ==> forall n :: n in nodes ==> InFirst(n, mask + 1)
    {
    }

    /** The head of a list is linked from its slot. */
    lemma SlotHead(pos: nat)
      requires Valid() && tab != null && pos < tab.Length && tab[pos] != null
      ensures tab[pos] in nodes && LeadsTo(Slot(pos), tab[pos])
    {
      assert ChainOk(tab[pos], chains[pos]);
      assert tab[pos] in chains[pos];
    }

    /** A table that counts nodes has one, so some slot is taken. */
    lemma SomeSlotTaken() returns (pos: nat)
      requires Valid() && size > 0
      ensures tab != null && pos < tab.Length && tab[pos] != null
    {
      var n :| n in nodes;
      pos := BitAnd(n.hcode, mask);
      assert ChainOk(tab[pos], chains[pos]);
    }
  }
}
