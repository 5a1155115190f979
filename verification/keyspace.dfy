/** The keyspace of server/MRD_server.cpp: entries in a hash map, and the deadline heap whose items
    know their entries and are known by them. */
module Keyspaces {
  import opened Bytes
  import opened Order
  import opened Hash
  import opened Codec
  import opened Spec
  import opened HashTable
  import opened HashMaps
  import opened ZSets
  import opened Entries
  import opened Heaps

  /** `dir` lists the entries of `entries` under their keys. */
  ghost predicate Keyed(dir: map<Str, Entry>, entries: set<Entry>) {
    && (forall k :: k in dir ==> dir[k] in entries && dir[k].key == k && dir[k].hcode == HashOf(k))
    && (forall e :: e in entries ==> e.key in dir && dir[e.key] == e)
  }

  /** The hash map holds the entries of `dir` under their keys, and nothing else. */
  ghost predicate Directory(index: map<(nat, Str), HNode<Entry>>, dir: map<Str, Entry>) {
    && (forall id :: id in index ==> id.0 == HashOf(id.1) && id.1 in dir && index[id].owner == dir[id.1])
    && (forall k :: k in dir ==> (HashOf(k), k) in index)
  }

  lemma DirectoryInsert(index: map<(nat, Str), HNode<Entry>>, dir: map<Str, Entry>, entries: set<Entry>,
                        e: Entry, h: HNode<Entry>)
    requires Directory(index, dir) && Keyed(dir, entries) && e.key !in dir && e.hcode == HashOf(e.key) && h.owner == e
    ensures (e.hcode, e.key) !in index && e !in entries
    ensures Directory(index[(e.hcode, e.key) := h], dir[e.key := e]) && Keyed(dir[e.key := e], entries + {e})
  {
  }

  lemma DirectoryErase(index: map<(nat, Str), HNode<Entry>>, dir: map<Str, Entry>, k: Str)
    requires Directory(index, dir)
    ensures k in dir <==> (HashOf(k), k) in index
    ensures k in dir ==> index[(HashOf(k), k)].owner == dir[k]
    ensures Directory(if k in dir then index - {(HashOf(k), k)} else index, dir - {k})
  {
  }

  lemma KeyedErase(dir: map<Str, Entry>, entries: set<Entry>, k: Str)
    requires Keyed(dir, entries)
    ensures if k in dir then dir[k] in entries && Keyed(dir - {k}, entries - {dir[k]}) else dir - {k} == dir
  {
  }

  ghost function ValueOf(v: Value): AbsVal
    reads if v.SetValue? then {v.z} else {}
  {
    match v
    case StrValue(s) => AStr(s)
    case SetValue(z) => ASet(z.contents)
  }

  ghost function DeadlineOf(e: Entry, deadlines: map<Entry, nat>): Option<nat> {
    if e in deadlines then Some(deadlines[e]) else None
  }

  /** Each entry knows whether it has a slot in the heap; the heap sees to it that it is the right one. */
  ghost predicate KnowsSlot(e: Entry, deadlines: map<Entry, nat>)
    reads e`heap_idx
  {
    e.heap_idx == NO_SLOT <==> e !in deadlines
  }

  /** Sets or removes the deadline of an entry, whether or not the keyspace (still) holds it. */
  method EntrySetTtl(ttl_heap: Heap, ent: Entry, ttl_ms: int, now: nat)
    requires ttl_heap.Valid() && KnowsSlot(ent, ttl_heap.deadlines)
    modifies ttl_heap, (ttl_heap.deadlines.Keys + {ent})`heap_idx
    ensures ttl_heap.Valid() && KnowsSlot(ent, ttl_heap.deadlines)
    ensures ttl_heap.deadlines == match Deadline(ttl_ms, now)
                                  case None => old(ttl_heap.deadlines) - {ent}
                                  case Some(d) => old(ttl_heap.deadlines)[ent := d]
    ensures forall e :: e in old(ttl_heap.deadlines) && e != ent ==> KnowsSlot(e, ttl_heap.deadlines)
  {
    if ttl_ms < 0 && ent.heap_idx != NO_SLOT {
      ttl_heap.Erase(ent.heap_idx);
      ent.heap_idx := NO_SLOT;
    } else if ttl_ms >= 0 {
      var expireAt := now + ttl_ms;
      ttl_heap.Upsert(ent.heap_idx, HeapItem(expireAt, ent));
    }
  }

  /** The sorted set of an entry, if it has one, lives in `region`; the value stands for `x`. */
  ghost predicate Holds(e: Entry, x: AbsVal, region: set<object>)
    reads e`val, region
  {
    && (e.val.SetValue? ==> e.val.z in region && e.val.z.Repr <= region && e.val.z in e.val.z.Repr && e.val.z.Valid())
    && x == ValueOf(e.val)
  }

  /** The values of the keyspace stand for `vals`, and no two sorted sets share an object. */
  ghost predicate Stored(dir: map<Str, Entry>, entries: set<Entry>, vals: map<Str, AbsVal>, sets: set<object>)
    reads entries`val, sets
  {
    && vals.Keys == dir.Keys
    && (forall k :: k in dir ==> dir[k] in entries && Holds(dir[k], vals[k], sets))
    && (forall k, l :: k in dir && l in dir && k != l && dir[k].val.SetValue? && dir[l].val.SetValue? ==>
          dir[k].val.z.Repr !! dir[l].val.z.Repr)
  }

  /** The heap is in order, and every entry knows whether it is in it. */
  ghost predicate Armed(entries: set<Entry>, heap: Heap)
    reads entries`heap_idx, heap, heap.deadlines.Keys`heap_idx
  {
    heap.Valid() && forall e :: e in entries ==> KnowsSlot(e, heap.deadlines)
  }

  lemma StoredErase(dir: map<Str, Entry>, entries: set<Entry>, vals: map<Str, AbsVal>, sets: set<object>, k: Str)
    requires Stored(dir, entries, vals, sets) && Keyed(dir, entries)
    ensures Stored(dir - {k}, if k in dir then entries - {dir[k]} else entries, vals - {k}, sets)
  {
    hide Holds;
  }

  lemma StoredInsert(dir: map<Str, Entry>, entries: set<Entry>, vals: map<Str, AbsVal>, sets: set<object>, e: Entry)
    requires Stored(dir, entries, vals, sets) && e.key !in dir
    requires e.val.SetValue? ==> e.val.z.Valid() && e.val.z.Repr !! sets
    ensures Stored(dir[e.key := e], entries + {e}, vals[e.key := ValueOf(e.val)],
                   sets + if e.val.SetValue? then e.val.z.Repr else {})
  {
    hide ZSet.Valid;
    ZSetOwnsItself(e);
  }

  lemma ZSetOwnsItself(e: Entry)
    ensures e.val.SetValue? && e.val.z.Valid() ==> e.val.z in e.val.z.Repr
  {
  }

  lemma ValuesOfKeys(dir: map<Str, Entry>, entries: set<Entry>, vals: map<Str, AbsVal>, sets: set<object>)
    requires Stored(dir, entries, vals, sets)
    ensures vals.Keys == dir.Keys
  {
  }

  /** What keys, values and deadlines stand for. */
  ghost function Abstract(dir: map<Str, Entry>, vals: map<Str, AbsVal>, deadlines: map<Entry, nat>): (s: State)
    requires dir.Keys == vals.Keys
    ensures s.Keys == vals.Keys
  {
    map k | k in vals :: AbsEntry(vals[k], DeadlineOf(dir[k], deadlines))
  }

  lemma AbstractAdd(dir: map<Str, Entry>, vals: map<Str, AbsVal>, deadlines: map<Entry, nat>,
                    k: Str, e: Entry, v: AbsVal, t: nat)
    requires dir.Keys == vals.Keys && forall l :: l in dir ==> dir[l] != e
    ensures Abstract(dir[k := e], vals[k := v], deadlines[e := t]) ==
            Abstract(dir, vals, deadlines)[k := AbsEntry(v, Some(t))]
  {
  }

  lemma AbstractErase(dir: map<Str, Entry>, vals: map<Str, AbsVal>, deadlines: map<Entry, nat>, k: Str)
    requires dir.Keys == vals.Keys && k in dir && forall l :: l in dir && l != k ==> dir[l] != dir[k]
    ensures Abstract(dir - {k}, vals - {k}, deadlines - {dir[k]}) == Abstract(dir, vals, deadlines) - {k}
  {
  }

  lemma AbstractUpdate(dir: map<Str, Entry>, vals: map<Str, AbsVal>, deadlines: map<Entry, nat>, k: Str, v: AbsVal)
    requires dir.Keys == vals.Keys && k in dir
    ensures vals[k := v].Keys == dir.Keys
    ensures var s := Abstract(dir, vals, deadlines);
            Abstract(dir, vals[k := v], deadlines) == s[k := s[k].(val := v)]
  {
  }

  /** A new value and then a new deadline make a new entry. */
  lemma Refreshed(s: State, key: Str, v: AbsVal, d: Option<nat>)
    requires key in s
    ensures var s' := s[key := s[key].(val := v)];
            s'[key := s'[key].(deadline := d)] == s[key := AbsEntry(v, d)]
  {
  }

  class Keyspace {
    const g_data: HashMap<Entry>
    const ttl_heap: Heap
    /** The live entries, also by key, and what their values stand for. */
    ghost var entries: set<Entry>
    ghost var dir: map<Str, Entry>
    ghost var vals: map<Str, AbsVal>
    /** The objects of all sorted sets. */
    ghost var sets: set<object>
    ghost var Repr: set<object>

    ghost predicate Valid()
      reads this, Repr
      ensures Valid() ==> this in Repr
    {
      Sound(entries)
    }

    /** All is well, except that the entry `x`, which is not in the hash map, may have a deadline. */
    ghost predicate Loose(x: Entry)
      reads this, Repr
    {
      x !in entries && Sound(entries + {x})
    }

    /** The structures agree; the entries in `known` may have deadlines. */
    ghost predicate Sound(known: set<Entry>)
      reads this, Repr
    {
      && this in Repr && g_data in Repr && ttl_heap in Repr
      && g_data.Repr <= Repr && known <= Repr && sets <= Repr
      && Separate(known)
      && entries <= known && ttl_heap.deadlines.Keys <= known
      && Keyed(dir, entries) && Index() && Armed(known, ttl_heap) && Stored(dir, entries, vals, sets)
    }

    ghost predicate Separate(known: set<Entry>)
      reads this, g_data`Repr
    {
      && this !in g_data.Repr && ttl_heap !in g_data.Repr && known !! g_data.Repr
      && this !in sets && ttl_heap !in sets && g_data !in sets && known !! sets && g_data.Repr !! sets
    }

    ghost predicate Index()
      reads this`dir, g_data, g_data.Repr
    {
      g_data.Valid() && Directory(AsMap(g_data.Nodes()), dir)
    }

    /** The abstract state that the structures stand for. */
    ghost function State(): State
      requires Valid()
      reads this, Repr
    {
      Abstract(dir, vals, ttl_heap.deadlines)
    }

    constructor ()
      ensures Valid() && fresh(Repr) && State() == map[]
    {
      hide *;
      g_data := new HashMap(128, 8);
      ttl_heap := new Heap();
      entries, dir, vals, sets := {}, map[], map[], {};
      new;
      Repr := {this, ttl_heap, g_data} + g_data.Repr;
      Empty();
      Whole();
      Facts([]);
      NoKeys(ttl_heap.deadlines);
    }

    lemma Empty()
      requires entries == {} && dir == map[] && vals == map[] && sets == {}
      requires g_data.Valid() && g_data.Nodes() == {} && ttl_heap.Valid()
      ensures Index() && Armed(entries, ttl_heap) && Kept() && vals.Keys == dir.Keys
    {
      hide HashMap.Valid;
      hide Heap.Valid;
      g_data.UniqueNodes();
    }

    lemma NoKeys(d: map<Entry, nat>)
      requires dir == map[] && vals == map[]
      ensures Abstract(dir, vals, d) == map[]
    {
    }

    method DataLookup(key: Str) returns (e: Entry?)
      requires Valid()
      ensures e == null <==> key !in State()
      ensures e != null ==> key in dir && e == dir[key]
    {
      hide HashMap.Valid;
      hide AsMap;
      hide Armed;
      hide Holds;
      DirectoryErase(AsMap(g_data.Nodes()), dir, key);
      var hcode := StrHash(key);
      var found := g_data.Lookup(hcode, key);
      e := if found == null then null else found.owner;
    }

    /** The entry of a sorted set, or what the commands on sorted sets answer without one. */
    method ExpectSet(key: Str, name: Str) returns (e: Entry?, missing: Reply)
      requires Valid()
      ensures e == null <==> !IsSet(State(), key)
      ensures e == null ==> missing == NoSet(State(), key, name)
      ensures e != null ==>
                && key in dir && e == dir[key] && e.val.SetValue? && State()[key].val.ASet?
                && e.val.z.Valid() && e.val.z.Repr <= Repr && e.val.z.contents == State()[key].val.m
    {
      hide Keyspace.Valid;
      hide Keyspace.State;
      hide Abstract;
      hide Ascii;
      hide ZSet.Valid;
      Facts(key);
      missing := Nil;
      e := DataLookup(key);
      if e == null {
        missing := Err(ERR_NOT_FOUND, name);
      } else if e.val.StrValue? {
        e, missing := null, Err(ERR_BAD_TYPE, name);
      }
    }

    /** The heap slot that an entry names holds its deadline. */
    lemma SlotOf(key: Str)
      requires Valid() && key in dir
      ensures var e := dir[key];
              if State()[key].deadline.Some?
              then 0 <= e.heap_idx < |ttl_heap.items| && ttl_heap.items[e.heap_idx].val == State()[key].deadline.value
              else e.heap_idx == NO_SLOT
    {
      hide Stored;
      hide Index;
      ValuesOfKeys(dir, entries, vals, sets);
    }

    /** `EntrySetTtl` keeps heap and entries in step. */
    method Rearm(e: Entry, ttl_ms: int, now: nat)
      requires Armed(entries, ttl_heap) && e in entries && ttl_heap.deadlines.Keys <= entries
      modifies ttl_heap, entries`heap_idx
      ensures Armed(entries, ttl_heap) && ttl_heap.deadlines.Keys <= entries
      ensures ttl_heap.deadlines == match Deadline(ttl_ms, now)
                                    case None => old(ttl_heap.deadlines) - {e}
                                    case Some(d) => old(ttl_heap.deadlines)[e := d]
    {
      hide Heap.Valid;
      EntrySetTtl(ttl_heap, e, ttl_ms, now);
    }

    lemma AbstractDeadline(k: Str, before: map<Entry, nat>, d: Option<nat>)
      requires dir.Keys == vals.Keys && k in dir && forall l :: l in dir && l != k ==> dir[l] != dir[k]
      ensures var s := Abstract(dir, vals, before);
              var after := match d
                           case None => before - {dir[k]}
                           case Some(t) => before[dir[k] := t];
              Abstract(dir, vals, after) == s[k := s[k].(deadline := d)]
    {
    }

    /** `EntrySetTtl` on an entry of the keyspace. */
    method SetTtl(k: Str, e: Entry, ttl_ms: int, now: nat)
      requires Valid() && k in dir && dir[k] == e
      modifies ttl_heap, entries`heap_idx
      ensures Valid() && State() == old(State())[k := old(State())[k].(deadline := Deadline(ttl_ms, now))]
    {
      hide *;
      Facts(k);
      Parts();
      DifferentEntries(k);
      AbstractDeadline(k, ttl_heap.deadlines, Deadline(ttl_ms, now));
      Rearm(e, ttl_ms, now);
      Whole();
      Facts(k);
    }

    // -------------------------------------------------------------- entries come and go

    /** What the hash map does about it, and what the directory becomes. */
    method Unlink(key: Str) returns (e: Entry?)
      requires Index() && this !in g_data.Repr
      modifies g_data.Repr, this`dir
      ensures Index() && dir == old(dir) - {key} && g_data.Repr == old(g_data.Repr)
      ensures if key in old(dir) then e == old(dir)[key] else e == null
    {
      hide HashMap.Valid;
      hide AsMap;
      DirectoryErase(AsMap(g_data.Nodes()), dir, key);
      hide Directory;
      var hcode := StrHash(key);
      var found := g_data.Erase(hcode, key);
      e := if found == null then null else found.owner;
      dir := dir - {key};
    }

    /** Erases a key from the hash map; the entry found there is no longer in the keyspace. */
    method EraseKey(key: Str) returns (e: Entry?)
      requires Valid()
      modifies g_data.Repr, this`entries, this`dir, this`vals
      ensures dir == old(dir) - {key} && vals == old(vals) - {key}
      ensures Repr == old(Repr) && ttl_heap.deadlines == old(ttl_heap.deadlines)
      ensures e == null <==> key !in old(dir)
      ensures if e == null then Valid() else e == old(dir)[key] && Loose(e)
    {
      hide Stored;
      hide Armed;
      hide Index;
      KeyedErase(dir, entries, key);
      StoredErase(dir, entries, vals, sets, key);
      hide Keyed;
      e := Unlink(key);
      vals := vals - {key};
      if e != null {
        entries := entries - {e};
        assert entries + {e} == old(entries);
      }
    }

    /** Forgets an entry that has left the hash map, and its deadline with it. */
    method EntryDel(e: Entry, now: nat)
      requires Loose(e)
      modifies ttl_heap, (entries + {e})`heap_idx
      ensures Valid() && ttl_heap.deadlines == old(ttl_heap.deadlines) - {e}
      ensures Repr == old(Repr) && dir == old(dir) && vals == old(vals)
    {
      hide Stored;
      hide Index;
      hide Heap.Valid;
      EntrySetTtl(ttl_heap, e, -1, now);
    }

    /** The hash node of a new entry, and what the directory becomes. */
    method Link(e: Entry)
      requires Index() && Keyed(dir, entries) && this !in g_data.Repr
      requires e.key !in dir && e.hcode == HashOf(e.key)
      modifies g_data.Repr, this`dir, this`entries
      ensures Index() && dir == old(dir)[e.key := e] && entries == old(entries) + {e} && Keyed(dir, entries)
      ensures fresh(g_data.Repr - old(g_data.Repr))
    {
      hide HashMap.Valid;
      hide AsMap;
      var h := new HNode<Entry>(e.hcode, e.key, e);
      DirectoryInsert(AsMap(g_data.Nodes()), dir, entries, e, h);
      hide Directory;
      hide Keyed;
      g_data.Insert(h);
      entries, dir := entries + {e}, dir[e.key := e];
    }

    /** An entry that may already have a deadline enters the hash map. */
    method AddEntry(e: Entry)
      requires Loose(e) && e.key !in dir && e.hcode == HashOf(e.key)
      requires e.val.SetValue? ==> e.val.z.Valid() && e.val.z.Repr !! Repr
      modifies g_data.Repr, this`entries, this`dir, this`vals, this`sets, this`Repr
      ensures Valid() && dir == old(dir)[e.key := e] && vals == old(vals)[e.key := ValueOf(e.val)]
      ensures ttl_heap.deadlines == old(ttl_heap.deadlines) && e.val == old(e.val)
      ensures fresh(Repr - old(Repr) - (if e.val.SetValue? then e.val.z.Repr else {}))
    {
      hide Stored;
      hide Armed;
      hide Index;
      hide ZSet.Valid;
      StoredInsert(dir, entries, vals, sets, e);
      hide Keyed;
      ghost var region := if e.val.SetValue? then e.val.z.Repr else {};
      Link(e);
      vals := vals[e.key := ValueOf(e.val)];
      sets := sets + region;
      Repr := Repr + g_data.Repr + region;
    }

    // -------------------------------------------------------------- values change

    /** The value part of the invariant, which the operations on one value keep. */
    ghost predicate Kept()
      reads this`entries, this`dir, this`vals, this`sets, entries`val, sets
    {
      && Stored(dir, entries, vals, sets) && Keyed(dir, entries)
      && this !in sets && entries !! sets
    }

    /** The entries other than the one under `k`, in `others`, are as they should be. */
    ghost predicate Rest(k: Str, others: set<Entry>, vals: map<Str, AbsVal>)
      reads this`dir, this`sets, others`val, sets
    {
      && vals.Keys == dir.Keys
      && (forall l :: l in dir && l != k ==> dir[l] in others && Holds(dir[l], vals[l], sets))
      && (forall l, m :: l in dir && m in dir && l != k && m != k && l != m
                         && dir[l].val.SetValue? && dir[m].val.SetValue? ==>
            dir[l].val.z.Repr !! dir[m].val.z.Repr)
    }

    lemma RestOf(k: Str, e: Entry)
      requires Kept() && k in dir && dir[k] == e
      ensures Rest(k, entries - {e}, vals) && Keyed(dir, entries) && this !in sets && entries !! sets && e in entries
    {
      hide Holds;
      OnlyUnder(k, e);
    }

    lemma Restored(k: Str, e: Entry, v: Str, before: map<Str, AbsVal>)
      requires k in dir && dir[k] == e && e in entries && e.val == StrValue(v) && Rest(k, entries - {e}, before)
      requires vals == before[k := AStr(v)] && Keyed(dir, entries) && this !in sets && entries !! sets
      ensures Kept()
    {
      hide Keyed;
      assert Holds(e, AStr(v), sets);
      hide Holds;
    }

    method StoreString(k: Str, e: Entry, v: Str)
      requires Kept() && k in dir && dir[k] == e && e.val.StrValue?
      modifies e`val, this`vals
      ensures Kept() && vals == old(vals)[k := AStr(v)] && e.val == StrValue(v)
    {
      hide *;
      RestOf(k, e);
      e.val := StrValue(v);
      vals := vals[k := AStr(v)];
      Restored(k, e, v, old(vals));
    }

    lemma OnlyUnder(k: Str, e: Entry)
      requires Keyed(dir, entries) && k in dir && dir[k] == e
      ensures e in entries && forall l :: l in dir && l != k ==> dir[l] != e
    {
    }

    /** The entries other than the one under `k` are as they should be, apart from the set `z`. */
    ghost predicate OthersKept(k: Str, z: ZSet)
      reads this`entries, this`dir, this`vals, this`sets, entries`val, sets, z`Repr
    {
      && vals.Keys == dir.Keys
      && (forall l :: l in dir && l != k ==>
            dir[l] in entries && Holds(dir[l], vals[l], sets) && (dir[l].val.SetValue? ==> dir[l].val.z.Repr !! z.Repr))
      && (forall l, m :: l in dir && m in dir && l != k && m != k && l != m
                         && dir[l].val.SetValue? && dir[m].val.SetValue? ==>
            dir[l].val.z.Repr !! dir[m].val.z.Repr)
    }

    method InsertInto(k: Str, e: Entry, name: Str, score: real)
      requires Kept() && k in dir && dir[k] == e && e.val.SetValue?
      modifies e.val.z.Repr
      ensures e.val.z.Valid() && e.val.z.contents == old(e.val.z.contents)[name := score]
      ensures fresh(e.val.z.Repr - old(e.val.z.Repr)) && OthersKept(k, e.val.z)
    {
      hide ZSet.Valid;
      OnlyUnder(k, e);
      hide Keyed;
      assert Holds(e, vals[k], sets);
      var added := e.val.z.Insert(name, score);
      forall l | l in dir && l != k
        ensures Holds(dir[l], vals[l], sets)
        ensures dir[l].val.SetValue? ==> dir[l].val.z.Repr == old(dir[l].val.z.Repr) && dir[l].val.z.Repr !! e.val.z.Repr
      {
        assert old(Holds(dir[l], vals[l], sets));
      }
      hide Holds;
    }

    /** The set `z` rejoins the others. */
    lemma Rejoin(k: Str, e: Entry)
      requires k in dir && dir[k] == e && e in entries && e.val.SetValue? && OthersKept(k, e.val.z) && e.val.z.Valid()
      ensures Stored(dir, entries, vals[k := ASet(e.val.z.contents)], sets + e.val.z.Repr)
    {
      hide ZSet.Valid;
      ZSetOwnsItself(e);
      var vals', sets' := vals[k := ASet(e.val.z.contents)], sets + e.val.z.Repr;
      forall l | l in dir ensures Holds(dir[l], vals'[l], sets') {
      }
      hide Holds;
    }

    /** Adds to the sorted set of an entry, or changes a score there. */
    method SetInsert(k: Str, e: Entry, name: Str, score: real)
      requires Kept() && k in dir && dir[k] == e && e.val.SetValue?
      modifies e.val.z.Repr, this`vals, this`sets
      ensures Kept() && old(sets) <= sets && fresh(sets - old(sets))
      ensures old(vals)[k].ASet? && vals == old(vals)[k := ASet(old(vals)[k].m[name := score])]
    {
      hide ZSet.Valid;
      assert Holds(e, vals[k], sets);
      InsertInto(k, e, name, score);
      Rejoin(k, e);
      hide Stored;
      sets := sets + e.val.z.Repr;
      vals := vals[k := ASet(e.val.z.contents)];
    }

    method RemoveFrom(k: Str, e: Entry, name: Str)
      requires Kept() && k in dir && dir[k] == e && e.val.SetValue?
      modifies e.val.z.Repr
      ensures e.val.z.Valid() && e.val.z.contents == old(e.val.z.contents) - {name}
      ensures e.val.z.Repr == old(e.val.z.Repr) && OthersKept(k, e.val.z)
    {
      hide ZSet.Valid;
      OnlyUnder(k, e);
      hide Keyed;
      assert Holds(e, vals[k], sets);
      var removed := e.val.z.Rem(name);
      forall l | l in dir && l != k
        ensures Holds(dir[l], vals[l], sets)
        ensures dir[l].val.SetValue? ==> dir[l].val.z.Repr == old(dir[l].val.z.Repr)
      {
        assert old(Holds(dir[l], vals[l], sets));
      }
      hide Holds;
    }

    method SetRemove(k: Str, e: Entry, name: Str)
      requires Kept() && k in dir && dir[k] == e && e.val.SetValue?
      modifies e.val.z.Repr, this`vals
      ensures Kept()
      ensures old(vals)[k].ASet? && vals == old(vals)[k := ASet(old(vals)[k].m - {name})]
    {
      hide ZSet.Valid;
      assert Holds(e, vals[k], sets);
      RemoveFrom(k, e, name);
      Rejoin(k, e);
      hide Stored;
      assert sets + e.val.z.Repr == sets;
      vals := vals[k := ASet(e.val.z.contents)];
    }

    // -------------------------------------------------------------- the same, on the whole keyspace

    /** A new entry, known to the keyspace but not yet in it. */
    method NewEntry(key: Str, val: Value) returns (e: Entry)
      requires Valid() && (val.SetValue? ==> val.z.Valid() && val.z.Repr !! Repr)
      modifies this`Repr
      ensures fresh(e) && e.key == key && e.val == val && e.hcode == HashOf(key) && Loose(e)
      ensures Repr == old(Repr) + {e} && e !in ttl_heap.deadlines
      ensures val.SetValue? ==> val.z.Valid() && val.z.Repr !! Repr
    {
      hide Stored;
      hide Index;
      hide Heap.Valid;
      hide ZSet.Valid;
      e := new Entry(key, val);
      Repr := Repr + {e};
    }

    /** `EntrySetTtl` on an entry that is not in the hash map yet. */
    method LooseTtl(e: Entry, ttl_ms: nat, now: nat)
      requires Loose(e)
      modifies ttl_heap, (entries + {e})`heap_idx
      ensures Loose(e) && ttl_heap.deadlines == old(ttl_heap.deadlines)[e := now + ttl_ms]
    {
      hide Stored;
      hide Index;
      hide Heap.Valid;
      EntrySetTtl(ttl_heap, e, ttl_ms, now);
    }

    /** What `Valid` says about one key. */
    lemma Facts(key: Str)
      requires Valid()
      ensures this in Repr && ttl_heap in Repr && entries <= Repr && g_data.Repr <= Repr && vals.Keys == dir.Keys
      ensures State() == Abstract(dir, vals, ttl_heap.deadlines)
      ensures key in State() <==> key in dir
      ensures key in dir ==>
                && dir[key] in entries && dir[key].key == key
                && State()[key] == AbsEntry(ValueOf(dir[key].val), DeadlineOf(dir[key], ttl_heap.deadlines))
      ensures key in dir && dir[key].val.SetValue? ==> dir[key].val.z.Valid() && dir[key].val.z.Repr <= Repr
    {
      hide ZSet.Valid;
      hide Index;
      hide Heap.Valid;
      if key in dir {
        assert Holds(dir[key], vals[key], sets);
      }
    }

    lemma AbstractInsert(key: Str, e: Entry, v: AbsVal)
      requires dir.Keys == vals.Keys
      ensures var d := ttl_heap.deadlines;
              Abstract(dir[key := e], vals[key := v], d) ==
              Abstract(dir, vals, d)[key := AbsEntry(v, DeadlineOf(e, d))]
    {
    }

    method ReplaceString(k: Str, e: Entry, v: Str)
      requires Valid() && k in dir && dir[k] == e && e.val.StrValue?
      modifies e`val, this`vals
      ensures Valid() && e.val == StrValue(v) && dir == old(dir) && entries == old(entries)
      ensures State() == old(State())[k := old(State())[k].(val := AStr(v))]
    {
      hide Stored;
      hide Index;
      hide Armed;
      hide Keyed;
      OnlyUnder(k, e);
      ValuesOfKeys(dir, entries, vals, sets);
      StoreString(k, e, v);
      ValuesOfKeys(dir, entries, vals, sets);
      AbstractUpdate(dir, old(vals), ttl_heap.deadlines, k, AStr(v));
    }

    /** A new entry, without a deadline yet. */
    method AddNew(key: Str, val: Value) returns (e: Entry)
      requires Valid() && key !in State() && (val.SetValue? ==> val.z.Valid() && val.z.Repr !! Repr)
      modifies Repr
      ensures Valid() && fresh(Repr - old(Repr) - (if val.SetValue? then val.z.Repr else {}))
      ensures key in dir && dir[key] == e && e.val == val
      ensures State() == old(State())[key := AbsEntry(ValueOf(val), None)]
    {
      hide Sound;
      hide Abstract;
      Facts(key);
      e := NewEntry(key, val);
      AbstractInsert(key, e, ValueOf(val));
      AddEntry(e);
      Facts(key);
    }

    /** Lines 441 and 447: an existing string is replaced and lives on. */
    method PutOld(key: Str, e: Entry, v: Str, now: nat)
      requires Valid() && key in dir && dir[key] == e && e.val.StrValue?
      modifies Repr
      ensures Valid() && Repr == old(Repr)
      ensures State() == old(State())[key := AbsEntry(AStr(v), Some(now + DEFAULT_TTL_MS))]
    {
      hide Keyspace.Valid;
      hide Keyspace.State;
      hide Abstract;
      hide ValueOf;
      hide DeadlineOf;
      Facts(key);
      ghost var s := State();
      ReplaceString(key, e, v);
      Facts(key);
      Refreshed(s, key, AStr(v), Some(now + DEFAULT_TTL_MS));
      SetTtl(key, e, DEFAULT_TTL_MS, now);
    }

    /** Lines 444-447: a new string. */
    method PutNew(key: Str, v: Str, now: nat)
      requires Valid() && key !in State()
      modifies Repr
      ensures Valid() && fresh(Repr - old(Repr))
      ensures State() == old(State())[key := AbsEntry(AStr(v), Some(now + DEFAULT_TTL_MS))]
    {
      hide Keyspace.Valid;
      hide Keyspace.State;
      hide Abstract;
      var e := AddNew(key, StrValue(v));
      Facts(key);
      SetTtl(key, e, DEFAULT_TTL_MS, now);
    }

    method Put(key: Str, v: Str, now: nat) returns (reply: Reply)
      requires Valid()
      modifies Repr
      ensures Valid() && fresh(Repr - old(Repr))
      ensures (State(), reply) == SetCmd(old(State()), key, v, now)
    {
      hide Keyspace.Valid;
      hide Keyspace.State;
      hide Abstract;
      Facts(key);
      var e := DataLookup(key);
      if e != null {
        if e.val.SetValue? {
          return Err(ERR_BAD_TYPE, Ascii("set: wrong data type, expected KV-pair"));
        }
        PutOld(key, e, v, now);
      } else {
        PutNew(key, v, now);
      }
      reply := Nil;
    }

    method Remove(key: Str, now: nat) returns (reply: Reply)
      requires Valid()
      modifies Repr
      ensures Valid() && Repr == old(Repr)
      ensures (State(), reply) == DelCmd(old(State()), key)
    {
      hide Keyspace.Valid;
      hide Keyspace.State;
      hide Abstract;
      Facts(key);
      ghost var d := ttl_heap.deadlines;
      DifferentEntries(key);
      var e := EraseKey(key);
      if e == null {
        assert old(dir) - {key} == old(dir) && old(vals) - {key} == old(vals);
        Facts(key);
        return Err(ERR_NOT_FOUND, Ascii("del: given key does not exist"));
      }
      LooseFacts(e);
      EntryDel(e, now);
      Facts(key);
      AbstractErase(old(dir), old(vals), d, key);
      reply := Int(1);
    }

    lemma DifferentEntries(key: Str)
      requires Valid()
      ensures key in dir ==> forall l :: l in dir && l != key ==> dir[l] != dir[key]
    {
      hide Stored;
      hide Index;
      hide Armed;
    }

    lemma LooseFacts(e: Entry)
      requires Loose(e)
      ensures this in Repr && ttl_heap in Repr && e in Repr && entries <= Repr && vals.Keys == dir.Keys
      ensures forall k :: k in dir ==> dir[k] != e
    {
      hide Index;
      hide Armed;
      hide Holds;
    }

    // -------------------------------------------------------------- sorted sets

    method InsertValid(k: Str, e: Entry, name: Str, score: real)
      requires Valid() && k in dir && dir[k] == e && e.val.SetValue?
      modifies e.val.z.Repr, this`vals, this`sets, this`Repr
      ensures Valid() && fresh(Repr - old(Repr)) && dir == old(dir) && entries == old(entries)
      ensures ttl_heap.deadlines == old(ttl_heap.deadlines)
      ensures old(vals)[k].ASet? && vals == old(vals)[k := ASet(old(vals)[k].m[name := score])]
    {
      hide *;
      Parts();
      OnlyUnder(k, e);
      SetWithin(k, e);
      SetInsert(k, e, name, score);
      Repr := Repr + sets;
      Whole();
    }

    /** What `Valid` consists of, and what keeps its parts from each other. */
    lemma Parts()
      requires Valid()
      ensures this in Repr && g_data in Repr && ttl_heap in Repr && g_data.Repr <= Repr && entries <= Repr && sets <= Repr
      ensures this !in g_data.Repr && ttl_heap !in g_data.Repr && entries !! g_data.Repr
      ensures this !in sets && ttl_heap !in sets && g_data !in sets && entries !! sets && g_data.Repr !! sets
      ensures ttl_heap.deadlines.Keys <= entries && vals.Keys == dir.Keys
      ensures Keyed(dir, entries) && Index() && Armed(entries, ttl_heap) && Stored(dir, entries, vals, sets) && Kept()
    {
      hide Index;
      hide Armed;
      hide Keyed;
      hide Holds;
    }

    lemma Whole()
      requires this in Repr && g_data in Repr && ttl_heap in Repr && g_data.Repr <= Repr && entries <= Repr && sets <= Repr
      requires this !in g_data.Repr && ttl_heap !in g_data.Repr && entries !! g_data.Repr
      requires g_data !in sets && ttl_heap !in sets && g_data.Repr !! sets
      requires ttl_heap.deadlines.Keys <= entries && Index() && Armed(entries, ttl_heap) && Kept()
      ensures Valid()
    {
      hide Index;
      hide Armed;
      hide Keyed;
      hide Stored;
    }

    method InsertScore(k: Str, e: Entry, name: Str, score: real)
      requires Valid() && k in dir && dir[k] == e && e.val.SetValue?
      modifies e.val.z.Repr, this`vals, this`sets, this`Repr
      ensures Valid() && fresh(Repr - old(Repr)) && dir == old(dir) && entries == old(entries)
      ensures old(State())[k].val.ASet?
      ensures State() == old(State())[k := old(State())[k].(val := ASet(old(State())[k].val.m[name := score]))]
    {
      hide Keyspace.Valid;
      hide Keyspace.State;
      Facts(k);
      InsertValid(k, e, name, score);
      Facts(k);
      AbstractUpdate(dir, old(vals), ttl_heap.deadlines, k, vals[k]);
    }

    method RemoveScore(k: Str, e: Entry, name: Str)
      requires Valid() && k in dir && dir[k] == e && e.val.SetValue?
      modifies e.val.z.Repr, this`vals
      ensures Valid() && Repr == old(Repr) && dir == old(dir) && entries == old(entries)
      ensures old(State())[k].val.ASet?
      ensures State() == old(State())[k := old(State())[k].(val := ASet(old(State())[k].val.m - {name}))]
    {
      hide *;
      Facts(k);
      ValueAt(k);
      Parts();
      OnlyUnder(k, e);
      SetWithin(k, e);
      SetRemove(k, e, name);
      Whole();
      Facts(k);
      AbstractUpdate(dir, old(vals), ttl_heap.deadlines, k, vals[k]);
    }

    lemma ValueAt(k: Str)
      requires Valid() && k in dir
      ensures k in vals && k in State() && State()[k].val == vals[k]
    {
      hide Index;
      hide Armed;
      ValuesOfKeys(dir, entries, vals, sets);
    }

    lemma SetWithin(k: Str, e: Entry)
      requires Stored(dir, entries, vals, sets) && k in dir && dir[k] == e && e.val.SetValue?
      ensures e.val.z.Valid() && e.val.z.Repr <= sets && vals[k] == ASet(e.val.z.contents)
    {
      hide ZSet.Valid;
      assert Holds(dir[k], vals[k], sets);
    }

    /** Lines 480-484: a new sorted set gets its deadline first, then its key, then its element. */
    method AddSet(key: Str, name: Str, score: real, now: nat)
      requires Valid() && key !in State()
      modifies Repr
      ensures Valid() && fresh(Repr - old(Repr))
      ensures State() == old(State())[key := AbsEntry(ASet(map[name := score]), Some(now + DEFAULT_TTL_MS))]
    {
      hide Keyspace.Valid;
      hide Keyspace.State;
      hide Abstract;
      hide ZSet.Valid;
      var e := AddEmptySet(key, now);
      Facts(key);
      InsertScore(key, e, name, score);
      assert map[][name := score] == map[name := score];
    }

    method AddEmptySet(key: Str, now: nat) returns (e: Entry)
      requires Valid() && key !in State()
      modifies Repr
      ensures Valid() && fresh(Repr - old(Repr)) && key in dir && dir[key] == e && e.val.SetValue?
      ensures State() == old(State())[key := AbsEntry(ASet(map[]), Some(now + DEFAULT_TTL_MS))]
    {
      hide Keyspace.Valid;
      hide Keyspace.State;
      hide ZSet.Valid;
      Facts(key);
      var z := new ZSet();
      e := AddWithTtl(key, SetValue(z), now);
    }

    method AddWithTtl(key: Str, val: Value, now: nat) returns (e: Entry)
      requires Valid() && key !in State() && (val.SetValue? ==> val.z.Valid() && val.z.Repr !! Repr)
      modifies Repr
      ensures Valid() && fresh(Repr - old(Repr) - (if val.SetValue? then val.z.Repr else {}))
      ensures key in dir && dir[key] == e && e.val == val
      ensures State() == old(State())[key := AbsEntry(old(ValueOf(val)), Some(now + DEFAULT_TTL_MS))]
    {
      hide *;
      Facts(key);
      e := NewEntry(key, val);
      LooseFacts(e);
      AbstractAdd(dir, vals, ttl_heap.deadlines, key, e, ValueOf(val), now + DEFAULT_TTL_MS);
      LooseTtl(e, DEFAULT_TTL_MS, now);
      AddEntry(e);
      Facts(key);
    }

    // -------------------------------------------------------------- commands that change the state

    method ZAddTo(key: Str, score: Parsed<real>, name: Str, now: nat) returns (reply: Reply)
      requires Valid()
      modifies Repr
      ensures Valid() && fresh(Repr - old(Repr))
      ensures (State(), reply) == ZAdd(old(State()), key, score, name, now)
    {
      hide Keyspace.Valid;
      hide Keyspace.State;
      hide Abstract;
      hide ZSet.Valid;
      Facts(key);
      var e := DataLookup(key);
      if !score.Value? {
        return BadNumber(score);
      }
      if e == null {
        AddSet(key, name, score.v, now);
      } else if e.val.StrValue? {
        return Err(ERR_BAD_TYPE, Ascii("zadd: expexcted set Entry"));
      } else {
        ZAddOld(key, e, score.v, name, now);
      }
      reply := Nil;
    }

    method ZAddOld(key: Str, e: Entry, score: real, name: Str, now: nat)
      requires Valid() && key in dir && dir[key] == e && e.val.SetValue?
      modifies Repr
      ensures Valid() && fresh(Repr - old(Repr)) && old(State())[key].val.ASet?
      ensures State() ==
              old(State())[key := AbsEntry(ASet(old(State())[key].val.m[name := score]), Some(now + DEFAULT_TTL_MS))]
    {
      hide Keyspace.Valid;
      hide Keyspace.State;
      hide Abstract;
      hide ZSet.Valid;
      Facts(key);
      ghost var s := State();
      InsertScore(key, e, name, score);
      Facts(key);
      Refreshed(s, key, ASet(s[key].val.m[name := score]), Some(now + DEFAULT_TTL_MS));
      SetTtl(key, e, DEFAULT_TTL_MS, now);
    }

    method ZRemFrom(key: Str, name: Str) returns (reply: Reply)
      requires Valid()
      modifies Repr
      ensures Valid() && fresh(Repr - old(Repr))
      ensures (State(), reply) == ZRem(old(State()), key, name)
    {
      hide Keyspace.Valid;
      hide Keyspace.State;
      hide Abstract;
      hide ZSet.Valid;
      Facts(key);
      var e, missing := ExpectSet(key, Ascii("zrem"));
      if e == null {
        return missing;
      }
      RemoveScore(key, e, name);
      reply := Int(1);
    }

    method ExpireKey(key: Str, ttl: Parsed<int>, now: nat) returns (reply: Reply)
      requires Valid()
      modifies Repr
      ensures Valid() && fresh(Repr - old(Repr))
      ensures (State(), reply) == Expire(old(State()), key, ttl, now)
    {
      hide Keyspace.Valid;
      hide Keyspace.State;
      hide Abstract;
      Facts(key);
      var e := DataLookup(key);
      if e == null {
        return Err(ERR_NOT_FOUND, Ascii("expire"));
      }
      if !ttl.Value? {
        return BadNumber(ttl);
      }
      SetTtl(key, e, ttl.v, now);
      reply := Nil;
    }

    // -------------------------------------------------------------- the timer tick

    /** The top of the heap is a least deadline of the state, and there is one if there is any. */
    lemma HeadIsLeast()
      requires Valid()
      ensures forall k :: k in State() && State()[k].deadline.Some? ==>
                |ttl_heap.items| > 0 && ttl_heap.items[0].val <= State()[k].deadline.value
      ensures |ttl_heap.items| > 0 ==>
                var e := ttl_heap.items[0].ref;
                e.key in State() && dir[e.key] == e && State()[e.key].deadline == Some(ttl_heap.items[0].val)
    {
      hide Stored;
      hide Index;
      ValuesOfKeys(dir, entries, vals, sets);
      forall k | k in State() && State()[k].deadline.Some?
        ensures |ttl_heap.items| > 0 && ttl_heap.items[0].val <= State()[k].deadline.value
      {
        var e := dir[k];
        assert e in ttl_heap.deadlines;
        FirstIsLeast(ttl_heap.items, e.heap_idx);
      }
    }

    /** Lines 99-102: the entry at the top of the heap goes, and it is the one its key leads to. */
    method ExpireFirst(now: nat)
      requires Valid() && |ttl_heap.items| > 0
      modifies Repr
      ensures Valid() && Repr == old(Repr)
      ensures State() == old(State()) - {old(ttl_heap.items[0].ref.key)}
    {
      hide Keyspace.Valid;
      hide Keyspace.State;
      hide Abstract;
      HeadIsLeast();
      var ent := ttl_heap.items[0].ref;
      Facts(ent.key);
      ghost var d := ttl_heap.deadlines;
      DifferentEntries(ent.key);
      ghost var erased := EraseKey(ent.key);
      assert erased == ent;
      LooseFacts(ent);
      EntryDel(ent, now);
      Facts(ent.key);
      AbstractErase(old(dir), old(vals), d, ent.key);
    }

    /** Removes expired entries, earliest deadlines first, at most MAX_WORKS of them. */
    method ProcessTimers(now: nat) returns (ghost removed: seq<Str>)
      requires Valid()
      modifies Repr
      ensures Valid() && Repr == old(Repr)
      ensures Ticked(old(State()), now, removed, State())
    {
      hide Keyspace.Valid;
      hide Keyspace.State;
      removed := [];
      var works := 0;
      HeadIsLeast();
      assert State() == old(State()) - {};
      while |ttl_heap.items| > 0 && ttl_heap.items[0].val < now && works < MAX_WORKS
        invariant Valid() && Repr == old(Repr)
        invariant works == |removed| <= MAX_WORKS
        invariant TickedSoFar(old(State()), now, removed, State())
        decreases MAX_WORKS - works
      {
        HeadIsLeast();
        ghost var k := ttl_heap.items[0].ref.key;
        TickOne(old(State()), now, removed, State(), k);
        works := works + 1;
        ExpireFirst(now);
        removed := removed + [k];
      }
      HeadIsLeast();
    }
  }
}
