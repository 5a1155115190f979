/** The incrementally rehashing map of shared/src/MRD_hashtable.cpp: a newer and an older table, and
    a cursor below which the older one has been emptied. */
module HashMaps {
  import opened Bytes
  import opened Sequences
  import opened Hash
  import opened HashTable

  ghost predicate SameId<T>(m: HNode<T>, n: HNode<T>) {
    m.hcode == n.hcode && m.key == n.key
  }

  /** No two nodes answer to the same hash code and key. */
  ghost predicate Unique<T>(s: set<HNode<T>>) {
    forall m, n {:trigger SameId(m, n)} :: m in s && n in s && SameId(m, n) ==> m == n
  }

  /** The map that a set of nodes stands for. */
  ghost function AsMap<T>(s: set<HNode<T>>): (m: map<(nat, Str), HNode<T>>)
    requires Unique(s)
    ensures forall n :: n in s ==> (n.hcode, n.key) in m && m[(n.hcode, n.key)] == n
    ensures forall id :: id in m ==> m[id] in s && Matches(m[id], id.0, id.1)
  {
    assert forall m, n :: m in s && n in s && (m.hcode, m.key) == (n.hcode, n.key) ==> SameId(m, n);
    map n | n in s :: (n.hcode, n.key) := n
  }

  lemma Mapped<T>(s: set<HNode<T>>, n: HNode<T>, hcode: nat, key: Str)
    requires Unique(s) && n in s && Matches(n, hcode, key)
    ensures (hcode, key) in AsMap(s) && AsMap(s)[(hcode, key)] == n
  {
  }

  lemma NotMapped<T>(s: set<HNode<T>>, hcode: nat, key: Str)
    requires Unique(s) && forall n :: n in s ==> !Matches(n, hcode, key)
    ensures (hcode, key) !in AsMap(s)
  {
  }

  lemma UniqueInsert<T>(s: set<HNode<T>>, n: HNode<T>)
    requires Unique(s) && (n.hcode, n.key) !in AsMap(s)
    ensures n !in s && Unique(s + {n})
    ensures AsMap(s + {n}) == AsMap(s)[(n.hcode, n.key) := n]
  {
    forall m | m in s ensures !SameId(m, n) && !SameId(n, m) {
      assert (m.hcode, m.key) in AsMap(s);
    }
    var left, right := AsMap(s + {n}), AsMap(s)[(n.hcode, n.key) := n];
    forall id ensures id in left <==> id in right {
      if id in left && left[id] != n {
        assert left[id] in s;
      }
    }
    forall id | id in left ensures left[id] == right[id] {
      if left[id] != n {
        assert left[id] in s;
      }
    }
  }

  lemma UniqueErase<T>(s: set<HNode<T>>, n: HNode<T>)
    requires Unique(s) && n in s
    ensures Unique(s - {n})
    ensures AsMap(s - {n}) == AsMap(s) - {(n.hcode, n.key)}
  {
    var left, right := AsMap(s - {n}), AsMap(s) - {(n.hcode, n.key)};
    forall id ensures id in left <==> id in right {
      if id in right {
        assert AsMap(s)[id] in s - {n};
      }
      if id in left {
        assert left[id] in s - {n} && !SameId(left[id], n);
      }
    }
  }

  class HashMap<T> {
    const k_rehashing_work: nat
    const k_max_load_factor: nat
    const newer: HTab<T>
    const older: HTab<T>
    var migrate_pos: nat

    /** The objects that operations may change. */
    ghost var Repr: set<object>

    ghost function Nodes(): set<HNode<T>>
      reads newer, older
    {
      newer.nodes + older.nodes
    }

    ghost predicate Valid()
      reads this, Repr
      ensures Valid() ==> this in Repr
    {
      && this in Repr && newer in Repr && older in Repr
      && newer.nodes <= Repr && older.nodes <= Repr
      && newer.tab in Repr + {null} && older.tab in Repr + {null}
      && Tables() && Growth()
    }

    lemma UniqueNodes()
      requires Valid()
      ensures Unique(Nodes())
    {
      hide Unique;
    }

    ghost predicate Tables()
      reads this`migrate_pos, newer, older, newer.tab, older.tab, newer.nodes, older.nodes
    {
      && newer != older && newer.Valid() && older.Valid()
      && newer.nodes !! older.nodes && Unique(newer.nodes + older.nodes)
      && (older.tab != null ==> newer.tab != null && newer.tab != older.tab && DrainedTo(migrate_pos))
    }

    /** How far the table can grow. Before the one migration it has 4 slots and stays below the load
        factor; from then on the newer table has 2 slots, however many nodes it holds, because the
        size of its array is computed from a mask that the swap has just reset. */
    ghost predicate Growth()
      reads newer, older
    {
      && k_max_load_factor > 0
      && (older.tab == null ==>
            newer.size < 4 * k_max_load_factor && (newer.tab != null ==> newer.tab.Length == 4))
      && (older.tab != null ==> newer.tab != null && newer.tab.Length == 2 && older.tab.Length == 4)
    }

    /** What the load factor is for: the newer table holds fewer than so many nodes per slot. */
    ghost predicate LoadBelow()
      reads newer
    {
      newer.tab != null ==> newer.size < newer.tab.Length * k_max_load_factor
    }

    /** The load factor is kept exactly as long as there has been no migration, or the two slots there
        are from then on suffice for the nodes that have been moved. */
    lemma LoadKept()
      requires Valid()
      ensures LoadBelow() <==> older.tab == null || |Nodes()| - older.size < 2 * k_max_load_factor
      ensures older.size == 0 ==> (LoadBelow() <==> older.tab == null || |Nodes()| < 2 * k_max_load_factor)
    {
      hide Unique;
      hide DrainedTo;
      Sizes();
    }

    /** The slots of the older table below `pos` are empty. */
    ghost predicate DrainedTo(pos: nat)
      requires older.tab != null
      reads older, older.tab
    {
      pos <= older.tab.Length && forall i :: 0 <= i < pos ==> older.tab[i] == null
    }

    constructor (work: nat, load: nat)
      requires work > 0 && load > 0
      ensures Valid() && fresh(Repr) && Nodes() == {}
      ensures k_rehashing_work == work && k_max_load_factor == load
      ensures newer.tab == older.tab == null && older.size == 0
    {
      k_rehashing_work, k_max_load_factor := work, load;
      newer := new HTab();
      older := new HTab();
      migrate_pos := 0;
      Repr := {this, newer, older};
    }

    method Lookup(hcode: nat, key: Str) returns (found: HNode?<T>)
      requires Valid()
      ensures if (hcode, key) in AsMap(Nodes()) then found == AsMap(Nodes())[(hcode, key)] else found == null
    {
      var from;
      from, found := newer.Lookup(hcode, key);
      if found != null {
        return;
      }
      from, found := older.Lookup(hcode, key);
    }

    /** What a round of migration leaves of `n` nodes in the older table. */
    ghost function Unmoved(n: nat): nat {
      if n <= k_rehashing_work then 0 else n - k_rehashing_work
    }

    /** What so many rounds of migration leave. */
    ghost function UnmovedAfter(n: nat, rounds: nat): nat {
      if rounds == 0 then n else UnmovedAfter(Unmoved(n), rounds - 1)
    }

    /** A migration of `n` nodes takes as many rounds as budgets are needed for `n` nodes, and every
        round but the last uses its whole budget. */
    lemma {:induction false} MigrationEnds(n: nat, rounds: nat)
      ensures UnmovedAfter(n, rounds) == if n <= rounds * k_rehashing_work then 0 else n - rounds * k_rehashing_work
    {
      if rounds > 0 {
        MigrationEnds(Unmoved(n), rounds - 1);
        assert rounds * k_rehashing_work == (rounds - 1) * k_rehashing_work + k_rehashing_work;
        assert (rounds - 1) * k_rehashing_work >= 0;
      }
    }

    method HelpRehashing()
      requires Tables()
      modifies this`migrate_pos, newer`size, newer`chains, newer`nodes, older`size, older`chains, older`nodes
      modifies newer.tab, older.tab, Nodes()`next
      ensures Tables() && Nodes() == old(Nodes())
      ensures older.size == Unmoved(old(older.size)) && newer.size + older.size == old(newer.size + older.size)
      ensures older.tab == null ==> newer.size == old(newer.size)
    {
      hide HTab.Valid;
      var nwork := 0;
      while nwork < k_rehashing_work && older.size > 0
        invariant Tables() && Nodes() == old(Nodes())
        invariant older.tab == null ==> newer.size == old(newer.size)
        invariant nwork <= k_rehashing_work
        invariant older.size + nwork == old(older.size) && newer.size + older.size == old(newer.size + older.size)
        decreases k_rehashing_work - nwork, if older.tab == null then 0 else older.tab.Length - migrate_pos
      {
        NonEmptySlotAhead();
        if older.tab[migrate_pos] == null {
          migrate_pos := migrate_pos + 1;
        } else {
          MigrateOne();
          nwork := nwork + 1;
        }
      }
    }

    lemma NonEmptySlotAhead()
      requires Tables() && older.size > 0
      ensures older.tab != null && newer.tab != null && migrate_pos < older.tab.Length
    {
      hide HTab.Valid;
      var pos := older.SomeSlotTaken();
    }

    /** What `Tables` says of the two tables. */
    lemma Apart()
      requires Tables()
      ensures newer != older && newer.Valid() && older.Valid() && newer.nodes !! older.nodes
      ensures Nodes() == newer.nodes + older.nodes && Unique(newer.nodes + older.nodes)
      ensures older.tab != null ==> newer.tab != null && newer.tab != older.tab && DrainedTo(migrate_pos)
    {
    }

    lemma Together()
      requires newer != older && newer.Valid() && older.Valid() && newer.nodes !! older.nodes
      requires Unique(newer.nodes + older.nodes)
      requires older.tab != null ==> newer.tab != null && newer.tab != older.tab && DrainedTo(migrate_pos)
      ensures Tables() && Nodes() == newer.nodes + older.nodes
    {
    }

    lemma Drained(pos: nat)
      requires older.tab != null
      ensures DrainedTo(pos) <==> pos <= older.tab.Length && forall i :: 0 <= i < pos ==> older.tab[i] == null
    {
    }

    /** One turn of the migration: the head of the first non-empty list moves to the newer table. */
    method MigrateOne()
      requires Tables() && older.tab != null && migrate_pos < older.tab.Length && older.tab[migrate_pos] != null
      modifies newer`size, newer`chains, newer`nodes, older`size, older`chains, older`nodes
      modifies newer.tab, older.tab, Nodes()`next
      ensures Tables() && Nodes() == old(Nodes())
      ensures newer.size == old(newer.size) + 1 && older.size == old(older.size) - 1
    {
      hide *;
      Apart();
      Drained(migrate_pos);
      ghost var n := older.tab[migrate_pos];
      older.SlotHead(migrate_pos);
      var node := older.Detach(Slot(migrate_pos), n);
      newer.Insert(node);
      Drained(migrate_pos);
      assert newer.nodes + older.nodes == old(newer.nodes + older.nodes);
      Together();
    }

    method TriggerRehashing()
      requires Tables() && older.tab == null && newer.tab != null
      modifies this`migrate_pos, newer, older
      ensures Tables() && Nodes() == old(Nodes()) && older.tab == old(newer.tab) && fresh(newer.tab)
      ensures newer.tab.Length == 2 && older.size == old(newer.size)
    {
      hide *;
      Apart();
      older.Unset();
      SwapTables();
      newer.Init((newer.mask + 1) * 2);
      migrate_pos := 0;
      Drained(0);
      assert newer.nodes + older.nodes == old(newer.nodes + older.nodes);
      Together();
    }

    /** Moving `newer` into `older` swaps the two: the zombie's zero mask is now the newer one's. */
    method SwapTables()
      requires newer != older && newer.Valid() && older.Valid()
      modifies newer, older
      ensures newer.Valid() && older.Valid()
      ensures newer.tab == old(older.tab) && older.tab == old(newer.tab)
      ensures newer.mask == old(older.mask) && older.mask == old(newer.mask)
      ensures newer.nodes == old(older.nodes) && older.nodes == old(newer.nodes)
      ensures newer.size == old(older.size) && older.size == old(newer.size)
    {
      newer.tab, older.tab := older.tab, newer.tab;
      newer.mask, older.mask := older.mask, newer.mask;
      newer.size, older.size := older.size, newer.size;
      newer.chains, older.chains := older.chains, newer.chains;
      newer.nodes, older.nodes := older.nodes, newer.nodes;
    }

    /** Lines 137-140: the load factor is tested only while there is no older table. */
    method GrowIfLoaded()
      requires Tables() && older.tab == null && newer.tab != null && newer.tab.Length == 4 && k_max_load_factor > 0
      modifies this`migrate_pos, newer, older
      ensures Tables() && Nodes() == old(Nodes()) && Growth()
      ensures newer.tab == old(newer.tab) || fresh(newer.tab)
      ensures older.tab == null || older.tab == old(newer.tab)
      ensures older.tab != null <==> old(newer.size) >= 4 * k_max_load_factor
      ensures older.size == if older.tab != null then old(newer.size) else old(older.size)
      ensures newer.tab != null && if older.tab == null then newer.size < 4 * k_max_load_factor && newer.tab.Length == 4
                                   else newer.tab.Length == 2 && older.tab.Length == 4
    {
      hide HTab.Valid;
      hide Unique;
      newer.Shape();
      assert newer.mask + 1 == 4;
      var threshold := (newer.mask + 1) * k_max_load_factor;
      if newer.size >= threshold {
        TriggerRehashing();
      }
    }

    lemma Sizes()
      requires Tables()
      ensures newer.size + older.size == |Nodes()|
      ensures older.tab == null ==> older.size == 0
    {
      hide Unique;
    }

    lemma Parts()
      requires Valid()
      ensures this in Repr && newer in Repr && older in Repr && newer != older && Nodes() <= Repr
      ensures newer.tab in Repr + {null} && older.tab in Repr + {null}
      ensures Tables() && Unique(Nodes()) && k_max_load_factor > 0
      ensures if older.tab == null then newer.tab == null || newer.tab.Length == 4
              else newer.tab != null && newer.tab.Length == 2 && older.tab.Length == 4
      ensures older.tab == null ==> older.size == 0
      ensures Unmoved(0) == 0
    {
      Sizes();
    }

    lemma AllMoved(n: nat)
      ensures n <= k_rehashing_work ==> Unmoved(n) == 0
      ensures Unmoved(0) == 0
    {
    }

    lemma Loaded()
      requires Valid()
      ensures newer.size + older.size == |Nodes()|
      ensures older.tab != null ==> newer.tab != null && newer.tab.Length == 2
    {
      Parts();
      Sizes();
    }

    lemma Whole()
      requires this in Repr && newer in Repr && older in Repr && Nodes() <= Repr
      requires newer.tab in Repr + {null} && older.tab in Repr + {null}
      requires Tables() && k_max_load_factor > 0
      requires if older.tab == null then newer.size < 4 * k_max_load_factor && (newer.tab == null || newer.tab.Length == 4)
               else newer.tab != null && newer.tab.Length == 2 && older.tab.Length == 4
      ensures Valid()
    {
      hide HTab.Valid;
      hide Unique;
    }

    /** Besides adding the node, an insert starts the migration if there is none yet and the load
        factor is reached, and then moves up to `k_rehashing_work` nodes. */
    method Insert(node: HNode<T>)
      requires Valid() && (node.hcode, node.key) !in AsMap(Nodes())
      modifies Repr, node`next
      ensures Valid() && fresh(Repr - old(Repr) - {node})
      ensures Nodes() == old(Nodes()) + {node} && AsMap(Nodes()) == old(AsMap(Nodes()))[(node.hcode, node.key) := node]
      ensures old(older.tab) != null ==> newer.tab == old(newer.tab) && older.tab == old(older.tab)
      ensures old(older.tab) == null ==> (older.tab != null <==> |Nodes()| >= 4 * k_max_load_factor)
      ensures older.size ==
              Unmoved(if old(older.tab) != null then old(older.size) else if older.tab != null then |Nodes()| else 0)
    {
      hide *;
      Parts();
      UniqueInsert(Nodes(), node);
      Admit(node);
      assert newer.tab in old(Repr) || fresh(newer.tab);
      assert older.tab != null ==> older.tab in old(Repr) || fresh(older.tab);
      ghost var tabs: set<object> := if older.tab != null then {newer.tab, older.tab} else {newer.tab};
      assert fresh(tabs - old(Repr));
      Repr := Repr + {node} + tabs;
      assert Repr - old(Repr) - {node} <= tabs - old(Repr);
      Whole();
    }

    /** Lines 132-142, without the footprint. */
    method Admit(node: HNode<T>)
      requires Tables() && node !in Nodes() && Unique(Nodes() + {node}) && k_max_load_factor > 0
      requires if older.tab == null then newer.tab == null || newer.tab.Length == 4
               else newer.tab != null && newer.tab.Length == 2 && older.tab.Length == 4
      modifies this`migrate_pos, newer, older, newer.tab, older.tab, Nodes()`next, node`next
      ensures Tables() && Nodes() == old(Nodes()) + {node} && newer.tab != null
      ensures newer.tab == old(newer.tab) || fresh(newer.tab)
      ensures older.tab == old(older.tab) || older.tab == old(newer.tab) || fresh(older.tab)
      ensures if older.tab == null then newer.size < 4 * k_max_load_factor && newer.tab.Length == 4
              else newer.tab.Length == 2 && older.tab.Length == 4
      ensures old(older.tab) != null ==> newer.tab == old(newer.tab) && older.tab == old(older.tab)
      ensures old(older.tab) == null ==> (older.tab != null <==> |Nodes()| >= 4 * k_max_load_factor)
      ensures older.size ==
              Unmoved(if old(older.tab) != null then old(older.size) else if older.tab != null then |Nodes()| else 0)
    {
      hide *;
      Enter(node);
      HelpRehashing();
    }

    /** Lines 132-141: the node enters the newer table, which may then become the older one. */
    method Enter(node: HNode<T>)
      requires Tables() && node !in Nodes() && Unique(Nodes() + {node}) && k_max_load_factor > 0
      requires if older.tab == null then newer.tab == null || newer.tab.Length == 4
               else newer.tab != null && newer.tab.Length == 2 && older.tab.Length == 4
      modifies this`migrate_pos, newer, older, newer.tab, node`next
      ensures Tables() && Nodes() == old(Nodes()) + {node} && newer.tab != null
      ensures newer.tab == old(newer.tab) || fresh(newer.tab)
      ensures older.tab == old(older.tab) || older.tab == old(newer.tab) || fresh(older.tab)
      ensures if older.tab == null then newer.size < 4 * k_max_load_factor && newer.tab.Length == 4
              else newer.tab.Length == 2 && older.tab.Length == 4
      ensures old(older.tab) != null ==>
                newer.tab == old(newer.tab) && older.tab == old(older.tab) && older.size == old(older.size)
      ensures old(older.tab) == null ==>
                && (older.tab != null <==> |Nodes()| >= 4 * k_max_load_factor)
                && older.size == if older.tab != null then |Nodes()| else 0
    {
      hide *;
      Apart();
      EnsureNewer();
      InsertNewer(node);
      Sizes();
      if older.tab == null {
        GrowIfLoaded();
        Sizes();
      }
    }

    /** Lines 132-134: the newer table exists from the first insert on. */
    method EnsureNewer()
      requires Tables()
      modifies newer
      ensures Tables() && newer.tab != null && Nodes() == old(Nodes())
      ensures if old(newer.tab) == null then fresh(newer.tab) && newer.tab.Length == 4 else newer.tab == old(newer.tab)
    {
      hide HTab.Valid;
      hide Unique;
      if newer.tab == null {
        newer.Unset();
        newer.Init(4);
        assert newer.nodes + older.nodes == old(newer.nodes + older.nodes);
      }
    }

    method InsertNewer(node: HNode<T>)
      requires Tables() && newer.tab != null && node !in Nodes() && Unique(Nodes() + {node})
      modifies newer`size, newer`chains, newer`nodes, newer.tab, node`next
      ensures Tables() && Nodes() == old(Nodes()) + {node} && newer.size == old(newer.size) + 1
    {
      hide *;
      Apart();
      newer.Insert(node);
      assert newer.nodes + older.nodes == old(newer.nodes + older.nodes) + {node};
      if older.tab != null {
        Drained(migrate_pos);
      }
      Together();
    }

    /** Before it looks for the key, an erase moves up to `k_rehashing_work` nodes. */
    method Erase(hcode: nat, key: Str) returns (erased: HNode?<T>)
      requires Valid()
      modifies Repr
      ensures Valid() && Repr == old(Repr)
      ensures var before := old(AsMap(Nodes()));
              if (hcode, key) in before then
                && erased == before[(hcode, key)] && Nodes() == old(Nodes()) - {erased}
                && AsMap(Nodes()) == before - {(hcode, key)}
              else erased == null && Nodes() == old(Nodes())
      ensures newer.tab == old(newer.tab) && older.tab == old(older.tab)
      ensures var left := Unmoved(old(older.size));
              older.size == left || (erased != null && older.size == left - 1)
    {
      hide HTab.Valid;
      hide Unique;
      hide AsMap;
      HelpRehashing();
      erased := EraseEither(hcode, key);
      if erased == null {
        NotMapped(Nodes(), hcode, key);
      } else {
        Mapped(old(Nodes()), erased, hcode, key);
        UniqueErase(old(Nodes()), erased);
      }
    }

    method EraseEither(hcode: nat, key: Str) returns (erased: HNode?<T>)
      requires Tables()
      modifies newer`size, newer`chains, newer`nodes, older`size, older`chains, older`nodes
      modifies newer.tab, older.tab, Nodes()`next
      ensures Tables() && newer.size <= old(newer.size)
      ensures older.size == old(older.size) || (erased != null && older.size == old(older.size) - 1)
      ensures erased == null ==> Nodes() == old(Nodes()) && forall n :: n in Nodes() ==> !Matches(n, hcode, key)
      ensures erased != null ==>
                erased in old(Nodes()) && Matches(erased, hcode, key) && Nodes() == old(Nodes()) - {erased}
    {
      hide HTab.Valid;
      erased := newer.Erase(hcode, key);
      if erased == null {
        erased := older.Erase(hcode, key);
      }
    }

    /** No table that holds nodes has only one slot. */
    lemma NoSingleSlots()
      requires Valid()
      ensures newer.mask == 0 ==> newer.nodes == {}
      ensures older.mask == 0 ==> older.nodes == {}
      ensures newer.nodes !! older.nodes && newer.Valid() && older.Valid()
    {
    }

    /** Visits every node once, newer table first, or stops at the first that `f` refuses. */
    method ForEach(f: HNode<T> -> bool) returns (ghost visited: seq<HNode<T>>)
      requires Valid()
      ensures NoDup(visited) && forall n :: n in visited ==> n in Nodes()
      ensures (forall n :: n in visited ==> f(n)) ==> forall n :: n in Nodes() ==> n in visited
      ensures forall j :: 0 <= j < |visited| - 1 ==> f(visited[j])
    {
      hide HTab.Valid;
      hide Unique;
      NoSingleSlots();
      var all;
      all, visited := newer.ForEach(f);
      if !all {
        return;
      }
      ghost var more;
      all, more := older.ForEach(f);
      NoDupConcat(visited, more);
      visited := visited + more;
    }

    method Size() returns (n: nat)
      requires Valid()
      ensures n == |Nodes()|
    {
      n := newer.size + older.size;
    }

    method Clear()
      requires Valid()
      modifies Repr
      ensures Valid() && Repr == old(Repr) && Nodes() == {} && newer.tab == older.tab == null
    {
      newer.Clear();
      older.Clear();
      migrate_pos := 0;
    }
  }

  /** A key for each number. */
  function KeyOf(n: nat): (k: Str)
    ensures |k| == n
  {
    seq(n, _ => 0)
  }

  lemma NewKey<T>(s: set<HNode<T>>, n: nat)
    requires Unique(s) && forall m :: m in s ==> |m.key| < n
    ensures (HashOf(KeyOf(n)), KeyOf(n)) !in AsMap(s) && |KeyOf(n)| == n
    ensures forall m :: m in s ==> m.key != KeyOf(n)
  {
    NotMapped(s, HashOf(KeyOf(n)), KeyOf(n));
  }

  /** Where the load factor fails: with a budget that large, the insert that reaches it leaves all nodes
      in two slots, for every load factor; with the server's 8 and 128 it is the 32nd. */
  method Overload(load: nat, work: nat) returns (m: HashMap<bool>)
    requires load > 0 && work >= 4 * load
    ensures fresh(m) && fresh(m.Repr) && m.Valid() && m.k_max_load_factor == load && m.k_rehashing_work == work
    ensures |m.Nodes()| == m.newer.size == 4 * load && m.newer.tab != null && m.newer.tab.Length == 2
    ensures !m.LoadBelow()
  {
    hide *;
    m := new HashMap(work, load);
    var i := 0;
    while i < 4 * load
      invariant i <= 4 * load && m.Valid() && fresh(m) && fresh(m.Repr)
      invariant m.k_max_load_factor == load && m.k_rehashing_work == work
      invariant |m.Nodes()| == i && forall n :: n in m.Nodes() ==> |n.key| < i
      invariant (m.older.tab != null <==> i == 4 * load) && m.older.size == 0
    {
      var hcode := StrHash(KeyOf(i));
      var node := new HNode<bool>(hcode, KeyOf(i), true);
      m.UniqueNodes();
      NewKey(m.Nodes(), i);
      m.AllMoved(i + 1);
      m.Insert(node);
      i := i + 1;
    }
    m.Loaded();
    m.LoadKept();
  }
}
