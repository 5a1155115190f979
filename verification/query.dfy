/** The range queries of server/MRD_server.cpp:509-631 on one sorted set, written element by element
    into the response buffer. */
module Queries {
  import opened Bytes
  import opened Shape
  import opened Avl
  import opened Order
  import opened Codec
  import opened Buffers
  import opened Spec
  import opened ZSets

  // ---------------------------------------------------------------- what is written

  lemma PairsConcat(lib: Library, a: seq<Item>, b: seq<Item>)
    ensures Pairs(lib, a + b) == Pairs(lib, a) + Pairs(lib, b)
  {
    if a == [] {
      assert a + b == b;
    } else {
      assert (a + b)[1..] == a[1..] + b;
      PairsConcat(lib, a[1..], b);
    }
  }

  /** The count of an array is twice the number of its elements. */
  lemma {:induction false} PairsLength(lib: Library, a: seq<Item>)
    ensures |Pairs(lib, a)| == 2 * |a|
  {
    if a != [] {
      PairsLength(lib, a[1..]);
    }
  }

  lemma EncodeTwo(x: Reply, y: Reply)
    ensures EncodeAll([x, y]) == Encode(x) + Encode(y)
  {
    hide Encode;
    assert [x, y][1..] == [y];
    assert EncodeAll([y]) == Encode(y) + EncodeAll([]);
  }

  /** The bytes that the elements of a query take. */
  ghost function Body(lib: Library, s: seq<Item>): seq<Byte> {
    EncodeAll(Pairs(lib, s))
  }

  ghost function Element(lib: Library, x: Item): seq<Byte> {
    Encode(Text(x.name)) + Encode(Dbl(lib.bits(x.score)))
  }

  lemma BodySnoc(lib: Library, s: seq<Item>, x: Item)
    ensures Body(lib, s + [x]) == Body(lib, s) + Element(lib, x)
  {
    hide Encode;
    PairsConcat(lib, s, [x]);
    var p := [Text(x.name), Dbl(lib.bits(x.score))];
    assert Pairs(lib, [x]) == p + Pairs(lib, []);
    EncodeAllConcat(Pairs(lib, s), p);
    EncodeTwo(p[0], p[1]);
    assert Pairs(lib, [x]) == p;
    assert x == [x][0];
  }

  /** Lines 543-544 and 585-586: one element is written. */
  method OutElement(out: Buffer, lib: Library, node: ZNode) returns (n: nat)
    requires out.Valid()
    modifies out, out.mem
    ensures out.Valid() && (out.mem == old(out.mem) || fresh(out.mem))
    ensures out.Contents() == old(out.Contents()) + Element(lib, ItemOf(node)) && n == |Element(lib, ItemOf(node))|
  {
    hide Encode;
    var a := OutStr(out, node.name);
    var b := OutDbl(out, lib.bits(node.score));
    n := a + b;
  }

  /** What has been written of an array whose elements are not all there yet. */
  ghost function Unfinished(lib: Library, before: seq<Byte>, s: seq<Item>): seq<Byte> {
    before + [TAG_ARR] + LE(0, 4) + Body(lib, s)
  }

  lemma UnfinishedStart(lib: Library, before: seq<Byte>)
    ensures Unfinished(lib, before, []) == before + [TAG_ARR] + LE(0, 4) && Body(lib, []) == []
  {
    assert before + [TAG_ARR] + LE(0, 4) + [] == before + [TAG_ARR] + LE(0, 4);
  }

  lemma UnfinishedSnoc(lib: Library, before: seq<Byte>, s: seq<Item>, x: Item)
    ensures Unfinished(lib, before, s + [x]) == Unfinished(lib, before, s) + Element(lib, x)
    ensures |Body(lib, s + [x])| == |Body(lib, s)| + |Element(lib, x)|
  {
    hide Body;
    hide Element;
    hide LE;
    BodySnoc(lib, s, x);
  }

  /** Lines 548 and 590: the array is closed, with its count and the number of its bytes. */
  method Finish(out: Buffer, lib: Library, ctx: nat, n: nat, ghost before: seq<Byte>, ghost s: seq<Item>)
    returns (len: nat)
    requires out.Valid() && n == 2 * |s| && ctx == 4 + |Body(lib, s)|
    requires out.Contents() == Unfinished(lib, before, s)
    modifies out.mem
    ensures out.Valid() && out.Contents() == before + Encode(Arr(Pairs(lib, s)))
    ensures |Body(lib, s)| + len == |Encode(Arr(Pairs(lib, s)))|
  {
    hide EncodeAll;
    PairsLength(lib, s);
    len := OutEndArr(out, ctx, n, before, Pairs(lib, s));
  }

  // ---------------------------------------------------------------- where a query starts

  /** A sorted tree lists its map in the one possible order. */
  lemma Canonical(z: ZSet)
    requires z.TreeOk()
    ensures Listing(z.tree) == RankingOf(z.contents) && |InOrder(z.tree)| == |RankingOf(z.contents)|
    ensures forall i :: 0 <= i < |InOrder(z.tree)| ==> ItemOf(InOrder(z.tree)[i]) == RankingOf(z.contents)[i]
  {
    hide Ranks;
    RankingOfRanks(z.contents);
    RankingUnique(Listing(z.tree), RankingOf(z.contents), z.contents);
  }

  lemma FromGe(z: ZSet, key: Item, below: seq<ZNode>, above: seq<ZNode>)
    requires z.TreeOk() && InOrder(z.tree) == below + above
    requires forall x :: x in below ==> ZLess(ItemOf(x), key)
    requires forall x :: x in above ==> !ZLess(ItemOf(x), key)
    ensures LowerBound(RankingOf(z.contents), key) == |below|
  {
    hide ZLess;
    hide ZSet.TreeOk;
    Canonical(z);
    ItemsOfConcat(below, above);
    assert Listing(z.tree) == ItemsOf(below) + ItemsOf(above);
    LowerBoundIs(ItemsOf(below), ItemsOf(above), key);
  }

  lemma FromLe(z: ZSet, key: Item, below: seq<ZNode>, above: seq<ZNode>)
    requires z.TreeOk() && InOrder(z.tree) == below + above
    requires forall x :: x in below ==> !ZGreater(ItemOf(x), key)
    requires forall x :: x in above ==> ZGreater(ItemOf(x), key)
    ensures UpperBound(RankingOf(z.contents), key) == |below|
  {
    hide ZGreater;
    hide ZSet.TreeOk;
    Canonical(z);
    ItemsOfConcat(below, above);
    assert Listing(z.tree) == ItemsOf(below) + ItemsOf(above);
    UpperBoundIs(ItemsOf(below), ItemsOf(above), key);
  }

  // ---------------------------------------------------------------- how far a query has come

  lemma NothingYet(s: seq<Item>, i: int)
    ensures Upward(s, i, 0) == [] && Downward(s, i, 0) == []
  {
  }

  lemma UpwardMore(s: seq<Item>, i: int, m: nat)
    requires 0 <= i && i + m < |s|
    ensures Upward(s, i, m + 1) == Upward(s, i, m) + [s[i + m]]
  {
  }

  /** A walk that has stopped at the end or at the limit has seen what the query asks for. */
  lemma UpwardWhole(s: seq<Item>, i: int, m: nat, limit: int)
    requires m == 0 || (0 <= i && i + m <= |s| && m <= limit)
    requires m < limit ==> i + m < 0 || i + m >= |s|
    ensures Upward(s, i, m) == Upward(s, i, limit) && |Upward(s, i, m)| == m
  {
  }

  lemma DownwardMore(s: seq<Item>, i: int, m: nat)
    requires 0 <= i - m && i < |s|
    ensures Downward(s, i, m + 1) == Downward(s, i, m) + [s[i - m]]
  {
    var part := s[i - m..i + 1];
    assert part[1..] == s[i + 1 - m..i + 1] && part[0] == s[i - m];
    assert Reverse(part) == Reverse(part[1..]) + [part[0]];
    if m == 0 {
      assert part[1..] == [] && Reverse(part[1..]) == [];
    }
    assert s[..i + 1] == s[0..i + 1];
  }

  lemma {:induction false} ReverseLength<T>(s: seq<T>)
    ensures |Reverse(s)| == |s|
  {
    if s != [] {
      ReverseLength(s[1..]);
    }
  }

  lemma DownwardWhole(s: seq<Item>, i: int, m: nat, limit: int)
    requires m == 0 || (0 <= i < |s| && m <= i + 1 && m <= limit)
    requires m < limit ==> i - m < 0 || i - m >= |s|
    ensures Downward(s, i, m) == Downward(s, i, limit) && |Downward(s, i, m)| == m
  {
    if m > 0 {
      ReverseLength(s[i + 1 - m..i + 1]);
    }
    if 0 < m < limit {
      assert s[i + 1 - m..i + 1] == s[..i + 1];
    }
  }

  lemma QueryGeIs(m: map<Str, real>, key: Item, offset: int, limit: int)
    ensures var s := RankingOf(m);
            var k := LowerBound(s, key);
            QueryGe(m, key, offset, limit) == Upward(s, if k == |s| then -1 else k + offset, limit)
  {
  }

  lemma QueryLeIs(m: map<Str, real>, key: Item, offset: int, limit: int)
    ensures var s := RankingOf(m);
            var k := UpperBound(s, key);
            QueryLe(m, key, offset, limit) == Downward(s, if k == 0 then -1 else k - 1 + offset, limit)
  {
  }

  // ---------------------------------------------------------------- the queries

  /** Lines 537-549. */
  method DoZQueryGe(z: ZSet, lib: Library, score: real, name: Str, offset: int, limit: int, out: Buffer)
    returns (written: nat)
    requires z.TreeOk() && out.Valid()
    modifies out, out.mem
    ensures out.Valid() && (out.mem == old(out.mem) || fresh(out.mem))
    ensures var reply := Arr(Pairs(lib, QueryGe(z.contents, Item(score, name), offset, limit)));
            out.Contents() == old(out.Contents()) + Encode(reply) && written == |Encode(reply)|
  {
    hide *;
    Allocated(z.tree);
    ghost var nodes, s, before := InOrder(z.tree), RankingOf(z.contents), out.Contents();
    var znode;
    ghost var below, above, steps;
    znode, below, above, steps := z.SeekGe(score, name);
    FromGe(z, Item(score, name), below, above);
    Canonical(z);
    ghost var i := if above == [] then -1 else |below| + offset;
    znode := z.Offset(znode, offset, |below|);
    var ctx := OutBeginArr(out);
    var n := 0;
    written := 0;
    UnfinishedStart(lib, before);
    NothingYet(s, i);
    while znode != null && n / 2 < limit
      invariant z.TreeOk() && out.Valid() && (out.mem == old(out.mem) || fresh(out.mem))
      invariant n % 2 == 0 && (n == 0 || (0 <= i && i + n / 2 <= |s| && n / 2 <= limit))
      invariant znode == if 0 <= i + n / 2 < |nodes| then nodes[i + n / 2] else null
      invariant out.Contents() == Unfinished(lib, before, Upward(s, i, n / 2))
      invariant written == |Body(lib, Upward(s, i, n / 2))|
      decreases limit - n / 2
    {
      Canonical(z);
      ghost var m := n / 2;
      UpwardMore(s, i, m);
      UnfinishedSnoc(lib, before, Upward(s, i, m), s[i + m]);
      var w := OutElement(out, lib, znode);
      written := written + w;
      znode := z.Offset(znode, 1, i + m);
      n := n + 2;
    }
    UpwardWhole(s, i, n / 2, limit);
    QueryGeIs(z.contents, Item(score, name), offset, limit);
    var len := Finish(out, lib, ctx + written, n, before, Upward(s, i, limit));
    written := written + len;
  }

  /** Lines 579-591. */
  method DoZQueryLe(z: ZSet, lib: Library, score: real, name: Str, offset: int, limit: int, out: Buffer)
    returns (written: nat)
    requires z.TreeOk() && out.Valid()
    modifies out, out.mem
    ensures out.Valid() && (out.mem == old(out.mem) || fresh(out.mem))
    ensures var reply := Arr(Pairs(lib, QueryLe(z.contents, Item(score, name), offset, limit)));
            out.Contents() == old(out.Contents()) + Encode(reply) && written == |Encode(reply)|
  {
    hide *;
    Allocated(z.tree);
    ghost var nodes, s, before := InOrder(z.tree), RankingOf(z.contents), out.Contents();
    var znode;
    ghost var below, above, steps;
    znode, below, above, steps := z.SeekLe(score, name);
    FromLe(z, Item(score, name), below, above);
    Canonical(z);
    ghost var last := if below == [] then 0 else |below| - 1;
    ghost var i := if below == [] then -1 else last + offset;
    znode := z.Offset(znode, offset, last);
    var ctx := OutBeginArr(out);
    var n := 0;
    written := 0;
    UnfinishedStart(lib, before);
    NothingYet(s, i);
    while znode != null && n / 2 < limit
      invariant z.TreeOk() && out.Valid() && (out.mem == old(out.mem) || fresh(out.mem))
      invariant n % 2 == 0 && (n == 0 || (0 <= i < |s| && n / 2 <= i + 1 && n / 2 <= limit))
      invariant znode == if 0 <= i - n / 2 < |nodes| then nodes[i - n / 2] else null
      invariant out.Contents() == Unfinished(lib, before, Downward(s, i, n / 2))
      invariant written == |Body(lib, Downward(s, i, n / 2))|
      decreases limit - n / 2
    {
      Canonical(z);
      ghost var m := n / 2;
      DownwardMore(s, i, m);
      UnfinishedSnoc(lib, before, Downward(s, i, m), s[i - m]);
      var w := OutElement(out, lib, znode);
      written := written + w;
      znode := z.Offset(znode, -1, i - m);
      n := n + 2;
    }
    DownwardWhole(s, i, n / 2, limit);
    QueryLeIs(z.contents, Item(score, name), offset, limit);
    var len := Finish(out, lib, ctx + written, n, before, Downward(s, i, limit));
    written := written + len;
  }

  // ---------------------------------------------------------------- counting

  lemma {:induction false} LowerBoundSplits(s: seq<Item>, key: Item)
    ensures var k := LowerBound(s, key);
            && k <= |s| && (forall i :: 0 <= i < k ==> ZLess(s[i], key))
            && (k < |s| ==> !ZLess(s[k], key))
  {
    hide ZLess;
    if s != [] && ZLess(s[0], key) {
      LowerBoundSplits(s[1..], key);
      forall i | 0 <= i < LowerBound(s, key) ensures ZLess(s[i], key) {
        assert i > 0 ==> s[i] == s[1..][i - 1];
      }
    }
  }

  /** Nothing is less than an item with the empty name unless its score is. */
  lemma LeastOfScore(x: Item, lo: real)
    ensures ZLess(x, Item(lo, [])) <==> x.score < lo
  {
  }

  lemma ScoresAscend(s: seq<Item>, i: int, j: int)
    requires Sorted(s) && 0 <= i <= j < |s|
    ensures s[i].score <= s[j].score
  {
    assert i < j ==> ZLess(s[i], s[j]);
  }

  ghost function Names(s: seq<Item>): seq<Str> {
    seq(|s|, i requires 0 <= i < |s| => s[i].name)
  }

  lemma NamesDiffer(s: seq<Item>, m: map<Str, real>, i: int, j: int)
    requires Ranks(s, m) && 0 <= i < j < |s|
    ensures s[i].name != s[j].name
  {
    hide ZLess;
    assert s[i] in s && s[j] in s;
    ZLessIrreflexive(s[i]);
  }

  /** Where one element stands tells whether its score lies in between. */
  lemma InBetween(s: seq<Item>, lo: real, hi: real, c: nat, i: nat)
    requires Sorted(s) && i < |s|
    requires var k := LowerBound(s, Item(lo, []));
             && k + c <= |s| && (forall i :: k <= i < k + c ==> s[i].score <= hi)
             && (k + c < |s| ==> s[k + c].score > hi)
    ensures var k := LowerBound(s, Item(lo, []));
            lo <= s[i].score <= hi <==> k <= i < k + c
  {
    hide ZLess;
    var k := LowerBound(s, Item(lo, []));
    LowerBoundSplits(s, Item(lo, []));
    LeastOfScore(s[i], lo);
    if k <= i {
      LeastOfScore(s[k], lo);
      ScoresAscend(s, k, i);
    }
    if k + c <= i {
      ScoresAscend(s, k + c, i);
    }
  }

  /** The `c` elements from the lower bound on, up to the first above `hi`, are those in between. */
  lemma CountIs(m: map<Str, real>, s: seq<Item>, lo: real, hi: real, c: nat)
    requires Ranks(s, m)
    requires var k := LowerBound(s, Item(lo, []));
             && k + c <= |s| && (forall i :: k <= i < k + c ==> s[i].score <= hi)
             && (k + c < |s| ==> s[k + c].score > hi)
    ensures |Between(m, lo, hi)| == c
  {
    hide LowerBound;
    hide Sorted;
    hide KeySet;
    hide Between;
    var k := LowerBound(s, Item(lo, []));
    var part := s[k..k + c];
    forall i | 0 <= i < |s| ensures lo <= s[i].score <= hi <==> k <= i < k + c {
      InBetween(s, lo, hi, c, i);
    }
    NamesBetween(m, s, lo, hi, k, c);
    forall i, j | 0 <= i < j < c ensures Names(part)[i] != Names(part)[j] {
      NamesDiffer(s, m, k + i, k + j);
    }
    KeySetSize(Names(part));
  }

  lemma NamesBetween(m: map<Str, real>, s: seq<Item>, lo: real, hi: real, k: nat, c: nat)
    requires Ranks(s, m) && k + c <= |s|
    requires forall i :: 0 <= i < |s| ==> (lo <= s[i].score <= hi <==> k <= i < k + c)
    ensures KeySet(Names(s[k..k + c])) == Between(m, lo, hi)
  {
    hide Sorted;
    var part := s[k..k + c];
    forall name | name in KeySet(Names(part)) ensures name in Between(m, lo, hi) {
      var i :| 0 <= i < c && Names(part)[i] == name;
      assert s[k + i] in s;
    }
    forall name | name in Between(m, lo, hi) ensures name in KeySet(Names(part)) {
      var i :| 0 <= i < |s| && s[i] == Item(m[name], name);
      assert Names(part)[i - k] == name;
    }
  }

  /** Lines 623-629. */
  method CountBetween(z: ZSet, lo: real, hi: real) returns (count: nat)
    requires z.TreeOk()
    ensures count == |Between(z.contents, lo, hi)|
  {
    hide *;
    Allocated(z.tree);
    ghost var nodes, s := InOrder(z.tree), RankingOf(z.contents);
    Canonical(z);
    RankingOfRanks(z.contents);
    count := 0;
    var found;
    ghost var below, above, steps;
    found, below, above, steps := z.SeekGe(lo, []);
    FromGe(z, Item(lo, []), below, above);
    ghost var k := |below|;
    while found != null && found.score <= hi
      invariant z.TreeOk() && k + count <= |nodes|
      invariant found == if k + count < |nodes| then nodes[k + count] else null
      invariant forall i :: k <= i < k + count ==> s[i].score <= hi
      decreases |nodes| - k - count
    {
      Canonical(z);
      ScoreOf(found);
      count := count + 1;
      found := z.Offset(found, 1, k + count - 1);
    }
    Canonical(z);
    if found != null {
      ScoreOf(found);
    }
    CountIs(z.contents, s, lo, hi, count);
  }

  lemma ScoreOf(n: ZNode)
    ensures ItemOf(n).score == n.score
  {
  }
}
