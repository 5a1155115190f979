/** The order of a sorted set (shared/src/MRD_zset.cpp:187-209): by score, then by name. */
module Order {
  import opened Bytes

  /** What a sorted set shows of one of its elements. */
  datatype Item = Item(score: real, name: Str)

  /** The library's memcmp over the first `n` bytes: the sign tells the order. */
  function Memcmp(a: Str, b: Str, n: nat): int
    requires n <= |a| && n <= |b|
  {
    if n == 0 then 0
    else if a[0] != b[0] then a[0] as int - b[0] as int
    else Memcmp(a[1..], b[1..], n - 1)
  }

  function Min(a: nat, b: nat): nat { if b < a then b else a }

  predicate ZLess(l: Item, r: Item) {
    if l.score != r.score then l.score < r.score
    else
      var res := Memcmp(l.name, r.name, Min(|l.name|, |r.name|));
      if res != 0 then res < 0 else |l.name| < |r.name|
  }

  predicate ZGreater(l: Item, r: Item) {
    if l.score != r.score then l.score > r.score
    else
      var res := Memcmp(l.name, r.name, Min(|l.name|, |r.name|));
      if res != 0 then res > 0 else |l.name| > |r.name|
  }

  /** The dictionary order on names, said without an algorithm: a proper prefix comes first, and
      otherwise the first byte that differs decides. */
  ghost predicate NameBefore(a: Str, b: Str) {
    exists k: nat :: SplitsAt(a, b, k)
  }

  ghost predicate SplitsAt(a: Str, b: Str, k: nat) {
    && k <= |a| && k < |b| && a[..k] == b[..k]
    && (k < |a| ==> a[k] < b[k])
  }

  /** Where the comparison of two names stops. */
  lemma {:induction false} MemcmpStops(a: Str, b: Str, n: nat) returns (k: nat)
    requires n <= |a| && n <= |b|
    ensures k <= n && a[..k] == b[..k]
    ensures if k < n then a[k] != b[k] && (Memcmp(a, b, n) < 0 <==> a[k] < b[k]) && Memcmp(a, b, n) != 0
            else Memcmp(a, b, n) == 0
  {
    if n == 0 || a[0] != b[0] {
      k := 0;
    } else {
      var k' := MemcmpStops(a[1..], b[1..], n - 1);
      k := k' + 1;
      assert a[..k] == [a[0]] + a[1..][..k'] && b[..k] == [b[0]] + b[1..][..k'];
    }
  }

  lemma AgreeBelow(a: Str, b: Str, k: nat)
    requires k <= |a| && k <= |b| && a[..k] == b[..k]
    ensures forall i :: 0 <= i < k ==> a[i] == b[i]
  {
    forall i | 0 <= i < k ensures a[i] == b[i] {
      assert a[i] == a[..k][i] && b[i] == b[..k][i];
    }
  }

  /** `ZLess` is the order by score and, for equal scores, the dictionary order of the names. */
  lemma ZLessMeaning(l: Item, r: Item)
    ensures ZLess(l, r) <==> l.score < r.score || (l.score == r.score && NameBefore(l.name, r.name))
  {
    var a, b := l.name, r.name;
    var n := Min(|a|, |b|);
    var k := MemcmpStops(a, b, n);
    if l.score == r.score && ZLess(l, r) {
      assert SplitsAt(a, b, k);
    }
    if NameBefore(a, b) {
      var j: nat :| SplitsAt(a, b, j);
      AgreeBelow(a, b, j);
      AgreeBelow(a, b, k);
    }
  }

  lemma ZLessIrreflexive(x: Item)
    ensures !ZLess(x, x)
  {
    var k := MemcmpStops(x.name, x.name, |x.name|);
  }

  lemma ZLessTotal(l: Item, r: Item)
    ensures l == r || ZLess(l, r) || ZLess(r, l)
    ensures ZGreater(l, r) <==> ZLess(r, l)
    ensures !(ZLess(l, r) && ZLess(r, l))
  {
    var a, b := l.name, r.name;
    var n := Min(|a|, |b|);
    var k := MemcmpStops(a, b, n);
    var j := MemcmpStops(b, a, n);
    AgreeBelow(a, b, k);
    AgreeBelow(a, b, j);
    if k == n && |a| == |b| {
      assert a == a[..k] && b == b[..k];
    }
  }

  lemma ZLessTransitive(x: Item, y: Item, z: Item)
    requires ZLess(x, y) && ZLess(y, z)
    ensures ZLess(x, z)
  {
    ZLessMeaning(x, y);
    ZLessMeaning(y, z);
    ZLessMeaning(x, z);
    if x.score == y.score == z.score {
      var a, b, c := x.name, y.name, z.name;
      var i: nat :| SplitsAt(a, b, i);
      var j: nat :| SplitsAt(b, c, j);
      var k := Min(i, j);
      assert a[..k] == a[..i][..k] && b[..k] == b[..i][..k] && b[..k] == b[..j][..k] && c[..k] == c[..j][..k];
      if i < j {
        assert b[i] == b[..j][i] && c[i] == c[..j][i];
      } else if j < i {
        assert a[j] == a[..i][j] && b[j] == b[..i][j];
      }
      assert SplitsAt(a, c, k);
    }
  }

  // ---------------------------------------------------------------- the sorted view of a map

  ghost predicate Sorted(s: seq<Item>) {
    forall i, j :: 0 <= i < j < |s| ==> ZLess(s[i], s[j])
  }

  /** `s` lists the elements of `m` in order. */
  ghost predicate Ranks(s: seq<Item>, m: map<Str, real>) {
    && Sorted(s)
    && (forall x :: x in s ==> x.name in m && m[x.name] == x.score)
    && (forall k :: k in m ==> Item(m[k], k) in s)
  }

  /** A map has only one sorted view: whatever shape the tree has, it lists the same sequence. */
  lemma {:induction false} RankingUnique(s: seq<Item>, t: seq<Item>, m: map<Str, real>)
    requires Ranks(s, m) && Ranks(t, m)
    ensures s == t
    decreases |s|
  {
    if s == [] {
      assert m == map[];
      assert forall x :: x !in t;
    } else {
      var x := s[0];
      assert x in s && x in t;
      var y := t[0];
      assert y in t && y in s;
      if x != y {
        var i :| 0 <= i < |s| && s[i] == y;
        var j :| 0 <= j < |t| && t[j] == x;
        assert ZLess(x, y) && ZLess(y, x);
        ZLessTotal(x, y);
      }
      RanksTail(s, m);
      RanksTail(t, m);
      RankingUnique(s[1..], t[1..], m - {x.name});
    }
  }

  lemma {:induction false} RanksSize(s: seq<Item>, m: map<Str, real>)
    requires Ranks(s, m)
    ensures |s| == |m|
  {
    if s == [] {
      assert m == map[];
    } else {
      RanksTail(s, m);
      RanksSize(s[1..], m - {s[0].name});
      assert s[0] in s;
      assert m.Keys == (m - {s[0].name}).Keys + {s[0].name};
    }
  }

  lemma RanksTail(s: seq<Item>, m: map<Str, real>)
    requires Ranks(s, m) && s != []
    ensures Ranks(s[1..], m - {s[0].name})
  {
    RanksRemove([], s[0], s[1..], m);
    assert [] + [s[0]] + s[1..] == s && [] + s[1..] == s[1..];
  }

  lemma SortedParts(a: seq<Item>, x: Item, b: seq<Item>)
    requires Sorted(a + [x] + b)
    ensures Sorted(a + b)
    ensures forall y :: y in a ==> ZLess(y, x)
    ensures forall y :: y in b ==> ZLess(x, y)
  {
    var s := a + [x] + b;
    forall i, j | 0 <= i < j < |a + b| ensures ZLess((a + b)[i], (a + b)[j]) {
      var i', j' := if i < |a| then i else i + 1, if j < |a| then j else j + 1;
      assert (a + b)[i] == s[i'] && (a + b)[j] == s[j'];
    }
    forall i | 0 <= i < |a| ensures ZLess(a[i], x) {
      assert s[i] == a[i] && s[|a|] == x;
    }
    forall i | 0 <= i < |b| ensures ZLess(x, b[i]) {
      assert s[|a| + 1 + i] == b[i] && s[|a|] == x;
    }
  }

  lemma SortedInsert(a: seq<Item>, x: Item, b: seq<Item>)
    requires Sorted(a + b)
    requires forall y :: y in a ==> ZLess(y, x)
    requires forall y :: y in b ==> ZLess(x, y)
    ensures Sorted(a + [x] + b)
  {
    var s := a + [x] + b;
    forall i, j | 0 <= i < j < |s| ensures ZLess(s[i], s[j]) {
      if i != |a| && j != |a| {
        var i', j' := if i < |a| then i else i - 1, if j < |a| then j else j - 1;
        assert (a + b)[i'] == s[i] && (a + b)[j'] == s[j];
      }
    }
  }

  lemma InWith(a: seq<Item>, x: Item, b: seq<Item>, y: Item)
    ensures y in a + [x] + b <==> y in a + b || y == x
  {
    assert y in a + [x] + b <==> y in a || y == x || y in b;
  }

  lemma RanksRemove(a: seq<Item>, x: Item, b: seq<Item>, m: map<Str, real>)
    requires Ranks(a + [x] + b, m)
    ensures Ranks(a + b, m - {x.name}) && x.name in m && m[x.name] == x.score
  {
    SortedParts(a, x, b);
    InWith(a, x, b, x);
    forall y | y in a + b ensures y.name in m && m[y.name] == y.score && y.name != x.name {
      InWith(a, x, b, y);
      ZLessIrreflexive(x);
      assert y in a || y in b;
    }
    forall k | k in m && k != x.name ensures Item(m[k], k) in a + b {
      InWith(a, x, b, Item(m[k], k));
    }
  }

  lemma RanksInsert(a: seq<Item>, x: Item, b: seq<Item>, m: map<Str, real>)
    requires Ranks(a + b, m) && x.name !in m
    requires forall y :: y in a ==> ZLess(y, x)
    requires forall y :: y in b ==> ZLess(x, y)
    ensures Ranks(a + [x] + b, m[x.name := x.score])
  {
    SortedInsert(a, x, b);
    forall y | y in a + [x] + b ensures y.name in m[x.name := x.score] && m[x.name := x.score][y.name] == y.score {
      InWith(a, x, b, y);
    }
    var m' := m[x.name := x.score];
    forall k | k in m' ensures Item(m'[k], k) in a + [x] + b {
      InWith(a, x, b, Item(m'[k], k));
    }
  }
}
