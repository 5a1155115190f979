/** The commands of the server as transitions of an abstract state: a map from keys to strings or
    sorted sets, each with or without a deadline (server/MRD_server.cpp:152-198, 425-666). */
module Spec {
  import opened Bytes
  import opened Order
  import opened Codec

  datatype AbsVal = AStr(s: Str) | ASet(m: map<Str, real>)
  datatype AbsEntry = AbsEntry(val: AbsVal, deadline: Option<nat>)
  type State = map<Str, AbsEntry>

  const DEFAULT_TTL_MS: nat := 900000
  const MAX_WORKS: nat := 2000

  /** What the number parsers of the C++ library make of a word: a value, or one of their two
      exceptions with its message. */
  datatype Parsed<T> = Value(v: T) | Invalid(what: Str) | OutOfRange(what: Str)

  /** The library functions the server relies on, taken as they are: stod, stol, stoi and the bytes
      of a double. */
  datatype Library = Library(stod: Str -> Parsed<real>, stol: Str -> Parsed<int>, stoi: Str -> Parsed<int>,
                             bits: real -> Double)

  /** A request is answered, or the process is lost: an index outside a vector, an exception that
      nothing catches, an assertion that fails. */
  datatype Outcome = Replied(reply: Reply) | Crashed

  function BadNumber<T>(p: Parsed<T>): Reply
    requires !p.Value?
  {
    match p
    case Invalid(what) => Err(ERR_BAD_TYPE, what)
    case OutOfRange(what) => Err(ERR_UNEXPECTED, what)
  }

  // ---------------------------------------------------------------- the sorted view

  ghost function InsertItem(s: seq<Item>, x: Item): seq<Item> {
    if s == [] || ZLess(x, s[0]) then [x] + s else [s[0]] + InsertItem(s[1..], x)
  }

  /** The elements of a sorted set in order. */
  ghost function RankingOf(m: map<Str, real>): seq<Item> {
    if m == map[] then []
    else
      var k :| k in m;
      InsertItem(RankingOf(m - {k}), Item(m[k], k))
  }

  lemma {:induction false} InsertItemSplits(s: seq<Item>, x: Item) returns (a: seq<Item>, b: seq<Item>)
    requires Sorted(s) && forall y :: y in s ==> y != x
    ensures s == a + b && InsertItem(s, x) == a + [x] + b
    ensures forall y :: y in a ==> ZLess(y, x)
    ensures forall y :: y in b ==> ZLess(x, y)
  {
    if s == [] {
      a, b := [], [];
    } else if ZLess(x, s[0]) {
      a, b := [], s;
      forall y | y in b ensures ZLess(x, y) {
        var i :| 0 <= i < |s| && s[i] == y;
        if i > 0 {
          ZLessTransitive(x, s[0], s[i]);
        }
      }
    } else {
      assert forall y :: y in s[1..] ==> y in s;
      var a', b' := InsertItemSplits(s[1..], x);
      a, b := [s[0]] + a', b';
      assert s[0] in s;
      ZLessTotal(x, s[0]);
      forall y | y in a ensures ZLess(y, x) {
        assert y == s[0] || y in a';
      }
      FrontStays(s[0], a', [x], b');
      assert a' + b' == a' + [] + b';
      FrontStays(s[0], a', [], b');
    }
  }

  lemma FrontStays(y: Item, a: seq<Item>, x: seq<Item>, b: seq<Item>)
    ensures [y] + (a + x + b) == [y] + a + x + b
  {
  }

  lemma {:induction false} RankingOfRanks(m: map<Str, real>)
    ensures Ranks(RankingOf(m), m)
  {
    if m != map[] {
      var k :| k in m && RankingOf(m) == InsertItem(RankingOf(m - {k}), Item(m[k], k));
      var x, rest := Item(m[k], k), m - {k};
      RankingOfRanks(rest);
      forall y | y in RankingOf(rest) ensures y != x {
      }
      var a, b := InsertItemSplits(RankingOf(rest), x);
      RanksInsert(a, x, b, rest);
      assert rest[k := m[k]] == m;
    }
  }

  /** How many elements at the front are less than the key. */
  ghost function LowerBound(s: seq<Item>, key: Item): nat {
    if s == [] || !ZLess(s[0], key) then 0 else 1 + LowerBound(s[1..], key)
  }

  /** How many elements at the front are not greater than the key. */
  ghost function UpperBound(s: seq<Item>, key: Item): nat {
    if s == [] || ZGreater(s[0], key) then 0 else 1 + UpperBound(s[1..], key)
  }

  lemma {:induction false} LowerBoundIs(a: seq<Item>, b: seq<Item>, key: Item)
    requires forall x :: x in a ==> ZLess(x, key)
    requires forall x :: x in b ==> !ZLess(x, key)
    ensures LowerBound(a + b, key) == |a|
  {
    if a == [] {
      assert a + b == b;
      assert b != [] ==> b[0] in b;
    } else {
      assert a[0] in a && (a + b)[1..] == a[1..] + b;
      LowerBoundIs(a[1..], b, key);
    }
  }

  lemma {:induction false} UpperBoundIs(a: seq<Item>, b: seq<Item>, key: Item)
    requires forall x :: x in a ==> !ZGreater(x, key)
    requires forall x :: x in b ==> ZGreater(x, key)
    ensures UpperBound(a + b, key) == |a|
  {
    if a == [] {
      assert a + b == b;
      assert b != [] ==> b[0] in b;
    } else {
      assert a[0] in a && (a + b)[1..] == a[1..] + b;
      UpperBoundIs(a[1..], b, key);
    }
  }

  // ---------------------------------------------------------------- queries

  /** The array a query sends: name and score of each element. */
  ghost function Pairs(lib: Library, s: seq<Item>): seq<Reply> {
    if s == [] then [] else [Text(s[0].name), Dbl(lib.bits(s[0].score))] + Pairs(lib, s[1..])
  }

  /** Upward from position `i`, at most `limit` elements. */
  ghost function Upward(s: seq<Item>, i: int, limit: int): seq<Item> {
    if i < 0 || i >= |s| || limit <= 0 then []
    else if i + limit <= |s| then s[i..i + limit]
    else s[i..]
  }

  ghost function Reverse<T>(s: seq<T>): seq<T> {
    if s == [] then [] else Reverse(s[1..]) + [s[0]]
  }

  /** Downward from position `i`, at most `limit` elements. */
  ghost function Downward(s: seq<Item>, i: int, limit: int): seq<Item> {
    if i < 0 || i >= |s| || limit <= 0 then []
    else if limit <= i + 1 then Reverse(s[i + 1 - limit..i + 1])
    else Reverse(s[..i + 1])
  }

  ghost function QueryGe(m: map<Str, real>, key: Item, offset: int, limit: int): seq<Item> {
    var s := RankingOf(m);
    var k := LowerBound(s, key);
    if k == |s| then [] else Upward(s, k + offset, limit)
  }

  ghost function QueryLe(m: map<Str, real>, key: Item, offset: int, limit: int): seq<Item> {
    var s := RankingOf(m);
    var k := UpperBound(s, key);
    if k == 0 then [] else Downward(s, k - 1 + offset, limit)
  }

  /** The elements with a score in a closed interval. */
  ghost function Between(m: map<Str, real>, lo: real, hi: real): set<Str> {
    set k | k in m && lo <= m[k] <= hi
  }

  // ---------------------------------------------------------------- one command

  /** `deadline` after a lifetime of `ttl` has been set at time `now`; a negative one removes it. */
  function Deadline(ttl: int, now: nat): Option<nat> {
    if ttl < 0 then None else Some(now + ttl)
  }

  ghost predicate IsSet(s: State, k: Str) {
    k in s && s[k].val.ASet?
  }

  /** The reply of the commands that work on a sorted set when there is none under the key. */
  ghost function NoSet(s: State, k: Str, name: Str): Reply
    requires !IsSet(s, k)
  {
    if k !in s then Err(ERR_NOT_FOUND, name) else Err(ERR_BAD_TYPE, name)
  }

  /** A string that does not fit a message would fail the assertion in line 432. */
  ghost function Get(s: State, k: Str): Outcome {
    if k !in s then Replied(Err(ERR_NOT_FOUND, Ascii("get")))
    else match s[k].val
         case ASet(_) => Replied(Err(ERR_BAD_TYPE, Ascii("get: expected KV-pair")))
         case AStr(v) => if |v| <= MAX_MSG then Replied(Text(v)) else Crashed
  }

  ghost function SetCmd(s: State, k: Str, v: Str, now: nat): (State, Reply) {
    if IsSet(s, k) then (s, Err(ERR_BAD_TYPE, Ascii("set: wrong data type, expected KV-pair")))
    else (s[k := AbsEntry(AStr(v), Some(now + DEFAULT_TTL_MS))], Nil)
  }

  ghost function DelCmd(s: State, k: Str): (State, Reply) {
    if k in s then (s - {k}, Int(1)) else (s, Err(ERR_NOT_FOUND, Ascii("del: given key does not exist")))
  }

  ghost function ZAdd(s: State, k: Str, score: Parsed<real>, name: Str, now: nat): (State, Reply) {
    if !score.Value? then (s, BadNumber(score))
    else if k in s && s[k].val.AStr? then (s, Err(ERR_BAD_TYPE, Ascii("zadd: expexcted set Entry")))
    else
      var m := if k in s then s[k].val.m else map[];
      (s[k := AbsEntry(ASet(m[name := score.v]), Some(now + DEFAULT_TTL_MS))], Nil)
  }

  ghost function ZRem(s: State, k: Str, name: Str): (State, Reply) {
    if !IsSet(s, k) then (s, NoSet(s, k, Ascii("zrem")))
    else (s[k := s[k].(val := ASet(s[k].val.m - {name}))], Int(1))
  }

  ghost function ZQuery(lib: Library, s: State, words: seq<Str>, ge: bool): Reply
    requires |words| == 6
  {
    var k := words[1];
    if !IsSet(s, k) then NoSet(s, k, Ascii("zqueryge"))
    else
      var score, offset, limit := lib.stod(words[2]), lib.stol(words[4]), lib.stol(words[5]);
      if !score.Value? then BadNumber(score)
      else if !offset.Value? then BadNumber(offset)
      else if !limit.Value? then BadNumber(limit)
      else
        var key := Item(score.v, words[3]);
        Arr(Pairs(lib, if ge then QueryGe(s[k].val.m, key, offset.v, limit.v)
                       else QueryLe(s[k].val.m, key, offset.v, limit.v)))
  }

  ghost function ZCount(lib: Library, s: State, words: seq<Str>): Outcome
    requires |words| == 4
  {
    var k := words[1];
    if !IsSet(s, k) then Replied(NoSet(s, k, Ascii("zqueryge")))
    else
      var lo, hi := lib.stod(words[2]), lib.stod(words[3]);
      if lo.Value? && hi.Value? then Replied(Int(|Between(s[k].val.m, lo.v, hi.v)|)) else Crashed
  }

  ghost function Expire(s: State, k: Str, ttl: Parsed<int>, now: nat): (State, Reply) {
    if k !in s then (s, Err(ERR_NOT_FOUND, Ascii("expire")))
    else if !ttl.Value? then (s, BadNumber(ttl))
    else (s[k := s[k].(deadline := Deadline(ttl.v, now))], Nil)
  }

  /** The deadline itself is sent, not the time left; without one there is no heap slot to read. */
  ghost function Ttl(s: State, k: Str): Outcome {
    if k !in s then Replied(Err(ERR_NOT_FOUND, Ascii("ttl")))
    else match s[k].deadline
         case Some(d) => Replied(Int(d))
         case None => Crashed
  }

  function EchoText(words: seq<Str>): Str {
    if words == [] then [] else words[0] + [32] + EchoText(words[1..])
  }

  /** What ZRANK may answer: 0 for a stranger, otherwise a position that does not exceed the
      element's own (which one depends on the shape of the tree, see `Walk.RankMeaning`). */
  ghost predicate ZRankMay(m: map<Str, real>, name: Str, rank: int) {
    if name !in m then rank == 0
    else 1 <= rank <= LowerBound(RankingOf(m), Item(m[name], name)) + 1
  }

  // ---------------------------------------------------------------- the timer tick

  /** The deadline of a key that has one. */
  ghost function Due(s: State, k: Str): nat
    requires k in s && s[k].deadline.Some?
  {
    s[k].deadline.value
  }

  ghost function KeySet(ks: seq<Str>): set<Str> {
    set k | k in ks
  }

  /** The keys of `removed` have left `s` in the order of their deadlines, all of them expired, and
      none that remains was due before any of them. */
  ghost predicate TickedSoFar(s: State, now: nat, removed: seq<Str>, s': State) {
    && s' == s - KeySet(removed)
    && (forall i :: 0 <= i < |removed| ==>
          removed[i] in s && s[removed[i]].deadline.Some? && Due(s, removed[i]) < now)
    && (forall i, j :: 0 <= i < j < |removed| ==>
          removed[i] != removed[j] && Due(s, removed[i]) <= Due(s, removed[j]))
    && (forall i, k :: 0 <= i < |removed| && k in s' && s'[k].deadline.Some? ==> Due(s, removed[i]) <= Due(s', k))
  }

  /** A whole tick: moreover, expired keys remain only if MAX_WORKS have been removed. */
  ghost predicate Ticked(s: State, now: nat, removed: seq<Str>, s': State) {
    && TickedSoFar(s, now, removed, s')
    && |removed| <= MAX_WORKS
    && (|removed| < MAX_WORKS ==> forall k :: k in s' && s'[k].deadline.Some? ==> now <= Due(s', k))
  }

  lemma TickOne(s: State, now: nat, removed: seq<Str>, s': State, k: Str)
    requires TickedSoFar(s, now, removed, s')
    requires k in s' && s'[k].deadline.Some? && Due(s', k) < now
    requires forall l :: l in s' && s'[l].deadline.Some? ==> Due(s', k) <= Due(s', l)
    ensures TickedSoFar(s, now, removed + [k], s' - {k})
  {
    var r := removed + [k];
    assert KeySet(r) == KeySet(removed) + {k};
    assert k !in removed;
    forall i | 0 <= i < |r| ensures r[i] in s && s[r[i]].deadline.Some? && Due(s, r[i]) < now {
      if i < |removed| {
        assert r[i] == removed[i];
      }
    }
  }

  ghost function Expired(s: State, now: nat): set<Str> {
    set k | k in s && s[k].deadline.Some? && Due(s, k) < now
  }

  lemma {:induction false} KeySetSize(ks: seq<Str>)
    requires forall i, j :: 0 <= i < j < |ks| ==> ks[i] != ks[j]
    ensures |KeySet(ks)| == |ks|
  {
    if ks != [] {
      var rest := ks[..|ks| - 1];
      KeySetSize(rest);
      var last := ks[|ks| - 1];
      assert KeySet(ks) == KeySet(rest) + {last};
      assert last !in KeySet(rest);
    } else {
      assert KeySet(ks) == {};
    }
  }

  /** A tick removes as many entries as have expired, up to MAX_WORKS. */
  lemma TickCount(s: State, now: nat, removed: seq<Str>, s': State)
    requires Ticked(s, now, removed, s')
    ensures |removed| == if |Expired(s, now)| < MAX_WORKS then |Expired(s, now)| else MAX_WORKS
    ensures KeySet(removed) <= Expired(s, now)
  {
    KeySetSize(removed);
    var gone, all := KeySet(removed), Expired(s, now);
    assert gone <= all;
    SubsetSize(gone, all);
    if |removed| < MAX_WORKS {
      assert forall k :: k in s && k !in gone ==> k in s' && s'[k] == s[k];
      assert gone == all;
    }
  }

  lemma SubsetSize<T>(a: set<T>, b: set<T>)
    requires a <= b
    ensures |a| <= |b|
  {
    assert b == a + (b - a);
  }
}
