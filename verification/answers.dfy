/** What each command does and answers, said over `Commands.Step` in elementary terms: keys, values,
    deadlines, positions in the sorted view (server/MRD_server.cpp:152-198, 425-666). */
module Answers {
  import opened Bytes
  import opened Order
  import opened Codec
  import opened Spec
  import opened Commands

  /** The request is the command `name`, in letters of either case, with `n` words in all. */
  ghost predicate Asks(w: seq<Str>, name: string, n: nat) {
    |w| == n > 0 && Upper(w[0]) == Ascii(name)
  }

  ghost predicate HoldsString(s: State, k: Str) {
    k in s && s[k].val.AStr?
  }

  ghost predicate HoldsSet(s: State, k: Str) {
    k in s && s[k].val.ASet?
  }

  /** The error for a word that is no number. */
  ghost predicate Complains<T>(o: Outcome, p: Parsed<T>) {
    match p
    case Value(_) => false
    case Invalid(what) => o == Replied(Err(ERR_BAD_TYPE, what))
    case OutOfRange(what) => o == Replied(Err(ERR_UNEXPECTED, what))
  }

  /** The error of a command on sorted sets under a key that holds none. */
  ghost predicate MissesSet(s: State, k: Str, o: Outcome, msg: string) {
    && (k !in s ==> o == Replied(Err(ERR_NOT_FOUND, Ascii(msg))))
    && (HoldsString(s, k) ==> o == Replied(Err(ERR_BAD_TYPE, Ascii(msg))))
  }

  // ---------------------------------------------------------------- names

  /** Small letters become large ones, and no other byte changes. */
  lemma UpperLetters(w: Str, i: nat)
    requires i < |w|
    ensures 97 <= w[i] <= 122 ==> Upper(w)[i] + 32 == w[i]
    ensures !(97 <= w[i] <= 122) ==> Upper(w)[i] == w[i]
  {
  }

  /** The byte is that letter, large or small. */
  predicate SameLetter(a: Byte, b: Byte) {
    a == b || (65 <= a <= 90 && b == a + 32) || (97 <= a <= 122 && a == b + 32)
  }

  /** Two spellings of a command that differ in the case of letters are the same command. */
  lemma CaseDoesNotMatter(lib: Library, s: State, w: seq<Str>, c: Str, now: nat, o: Outcome, s': State)
    requires w != [] && |c| == |w[0]| && forall i :: 0 <= i < |c| ==> SameLetter(w[0][i], c[i])
    ensures Step(lib, s, w, now, o, s') <==> Step(lib, s, w[0 := c], now, o, s')
  {
    var v := w[0 := c];
    assert Upper(c) == Upper(w[0]);
    assert w[1..] == v[1..];
    hide Upper;
    hide Ascii;
    hide EchoText;
    hide Get;
    hide SetCmd;
    hide DelCmd;
    hide ZAdd;
    hide ZRem;
    hide ZRankStep;
    hide Expire;
    hide Ttl;
    hide Pairs;
    hide QueryGe;
    hide QueryLe;
    hide Between;
  }

  /** SDIE in letters of either case, whatever comes behind it. */
  lemma SdieSpelled(w: seq<Str>)
    ensures IsSdie(w) <==>
            && |w| > 0 && |w[0]| == 4 && w[0][0] in {83, 115} && w[0][1] in {68, 100}
            && w[0][2] in {73, 105} && w[0][3] in {69, 101}
  {
    if |w| > 0 && |w[0]| == 4 {
      var u, d := Upper(w[0]), Ascii("SDIE");
      assert d[0] == 83 && d[1] == 68 && d[2] == 73 && d[3] == 69;
      assert u == d <==> u[0] == d[0] && u[1] == d[1] && u[2] == d[2] && u[3] == d[3];
    }
  }

  // ---------------------------------------------------------------- strings and keys

  lemma GetAnswers(lib: Library, s: State, w: seq<Str>, now: nat, o: Outcome, s': State)
    requires Step(lib, s, w, now, o, s') && Asks(w, "GET", 2)
    ensures s' == s
    ensures w[1] !in s ==> o == Replied(Err(ERR_NOT_FOUND, Ascii("get")))
    ensures HoldsSet(s, w[1]) ==> o == Replied(Err(ERR_BAD_TYPE, Ascii("get: expected KV-pair")))
    ensures HoldsString(s, w[1]) ==>
              o == if |s[w[1]].val.s| <= MAX_MSG then Replied(Text(s[w[1]].val.s)) else Crashed
  {
    CommandsDiffer();
    hide Ascii;
    hide Upper;
  }

  /** SET is accepted exactly where there is no sorted set, and changes one key. */
  lemma SetAnswers(lib: Library, s: State, w: seq<Str>, now: nat, o: Outcome, s': State)
    requires Step(lib, s, w, now, o, s') && Asks(w, "SET", 3)
    ensures o == Replied(Nil) <==> !HoldsSet(s, w[1])
    ensures !HoldsSet(s, w[1]) ==> s' == s[w[1] := AbsEntry(AStr(w[2]), Some(now + 900000))]
    ensures HoldsSet(s, w[1]) ==>
              s' == s && o == Replied(Err(ERR_BAD_TYPE, Ascii("set: wrong data type, expected KV-pair")))
  {
    CommandsDiffer();
    hide Ascii;
    hide Upper;
  }

  /** After DEL there is no such key, and the others are what they were. */
  lemma DelAnswers(lib: Library, s: State, w: seq<Str>, now: nat, o: Outcome, s': State)
    requires Step(lib, s, w, now, o, s') && Asks(w, "DEL", 2)
    ensures w[1] !in s' && forall k :: k in s && k != w[1] ==> k in s' && s'[k] == s[k]
    ensures forall k :: k in s' ==> k in s
    ensures w[1] in s ==> o == Replied(Int(1))
    ensures w[1] !in s ==> s' == s && o == Replied(Err(ERR_NOT_FOUND, Ascii("del: given key does not exist")))
  {
    CommandsDiffer();
    hide Ascii;
    hide Upper;
  }

  /** EXPIRE sets the time to come, or removes the deadline, and leaves the value. */
  lemma ExpireAnswers(lib: Library, s: State, w: seq<Str>, now: nat, o: Outcome, s': State)
    requires Step(lib, s, w, now, o, s') && Asks(w, "EXPIRE", 3)
    ensures w[1] in s && lib.stoi(w[2]).Value? ==>
              && o == Replied(Nil) && w[1] in s' && s'[w[1]].val == s[w[1]].val
              && s'[w[1]].deadline == (if lib.stoi(w[2]).v < 0 then None else Some(now + lib.stoi(w[2]).v))
              && s'.Keys == s.Keys && forall k :: k in s && k != w[1] ==> s'[k] == s[k]
    ensures w[1] !in s ==> s' == s && o == Replied(Err(ERR_NOT_FOUND, Ascii("expire")))
    ensures w[1] in s && !lib.stoi(w[2]).Value? ==> s' == s && Complains(o, lib.stoi(w[2]))
  {
    CommandsDiffer();
    hide Ascii;
    hide Upper;
  }

  /** TTL tells the deadline; without one there is none to read. */
  lemma TtlAnswers(lib: Library, s: State, w: seq<Str>, now: nat, o: Outcome, s': State)
    requires Step(lib, s, w, now, o, s') && Asks(w, "TTL", 2)
    ensures s' == s
    ensures w[1] !in s ==> o == Replied(Err(ERR_NOT_FOUND, Ascii("ttl")))
    ensures w[1] in s ==>
              o == if s[w[1]].deadline.Some? then Replied(Int(s[w[1]].deadline.value)) else Crashed
  {
    CommandsDiffer();
    hide Ascii;
    hide Upper;
  }

  // ---------------------------------------------------------------- sorted sets

  lemma ZAddAnswers(lib: Library, s: State, w: seq<Str>, now: nat, o: Outcome, s': State)
    requires Step(lib, s, w, now, o, s') && Asks(w, "ZADD", 4)
    ensures !lib.stod(w[2]).Value? ==> s' == s && Complains(o, lib.stod(w[2]))
    ensures lib.stod(w[2]).Value? && HoldsString(s, w[1]) ==>
              s' == s && o == Replied(Err(ERR_BAD_TYPE, Ascii("zadd: expexcted set Entry")))
    ensures lib.stod(w[2]).Value? && !HoldsString(s, w[1]) ==>
              var m := if w[1] in s then s[w[1]].val.m else map[];
              && o == Replied(Nil)
              && s' == s[w[1] := AbsEntry(ASet(m[w[3] := lib.stod(w[2]).v]), Some(now + 900000))]
  {
    CommandsDiffer();
    hide Ascii;
    hide Upper;
  }

  /** ZREM takes the name out and leaves the deadline alone. */
  lemma ZRemAnswers(lib: Library, s: State, w: seq<Str>, now: nat, o: Outcome, s': State)
    requires Step(lib, s, w, now, o, s') && Asks(w, "ZREM", 3)
    ensures !HoldsSet(s, w[1]) ==> s' == s && MissesSet(s, w[1], o, "zrem")
    ensures HoldsSet(s, w[1]) ==>
              && o == Replied(Int(1)) && HoldsSet(s', w[1]) && s'[w[1]].deadline == s[w[1]].deadline
              && s'[w[1]].val.m.Keys == s[w[1]].val.m.Keys - {w[2]}
              && (forall n :: n in s'[w[1]].val.m ==> s'[w[1]].val.m[n] == s[w[1]].val.m[n])
              && s'.Keys == s.Keys && forall k :: k in s && k != w[1] ==> s'[k] == s[k]
  {
    CommandsDiffer();
    hide Ascii;
    hide Upper;
  }

  /** ZCOUNT counts the scores in the closed interval from its third word to its fourth. */
  lemma ZCountAnswers(lib: Library, s: State, w: seq<Str>, now: nat, o: Outcome, s': State)
    requires Step(lib, s, w, now, o, s') && Asks(w, "ZCOUNT", 4)
    ensures s' == s && (!HoldsSet(s, w[1]) ==> MissesSet(s, w[1], o, "zqueryge"))
    ensures HoldsSet(s, w[1]) && lib.stod(w[2]).Value? && lib.stod(w[3]).Value? ==>
              var m, lo, hi := s[w[1]].val.m, lib.stod(w[2]).v, lib.stod(w[3]).v;
              o == Replied(Int(|set n | n in m && lo <= m[n] <= hi|))
    ensures HoldsSet(s, w[1]) && !(lib.stod(w[2]).Value? && lib.stod(w[3]).Value?) ==> o == Crashed
  {
    CommandsDiffer();
    hide Ascii;
    hide Upper;
  }

  /** ZRANK gives the key a new lifetime. Its answer is 0 for a stranger, and for the element behind
      `a` in the sorted view at most its place there. */
  lemma ZRankAnswers(lib: Library, s: State, w: seq<Str>, now: nat, o: Outcome, s': State)
    requires Step(lib, s, w, now, o, s') && Asks(w, "ZRANK", 3)
    ensures !HoldsSet(s, w[1]) ==> s' == s && MissesSet(s, w[1], o, "zqueryge")
    ensures HoldsSet(s, w[1]) ==>
              && s' == s[w[1] := AbsEntry(s[w[1]].val, Some(now + 900000))]
              && o.Replied? && o.reply.Int? && (w[2] !in s[w[1]].val.m ==> o.reply.v == 0)
  {
    CommandsDiffer();
    hide Ascii;
    hide Upper;
  }

  lemma ZRankBounds(lib: Library, s: State, w: seq<Str>, now: nat, o: Outcome, s': State,
                    a: seq<Item>, x: Item, b: seq<Item>)
    requires Step(lib, s, w, now, o, s') && Asks(w, "ZRANK", 3) && HoldsSet(s, w[1])
    requires Ranks(a + [x] + b, s[w[1]].val.m) && x.name == w[2]
    ensures o.Replied? && o.reply.Int? && 1 <= o.reply.v <= |a| + 1
  {
    hide Step;
    hide Upper;
    hide Ascii;
    hide ZLess;
    hide Sorted;
    hide Ranks;
    hide RankingOf;
    hide LowerBound;
    hide UpperBound;
    ZRankOf(lib, s, w, now, o, s');
    RankingOfRanks(s[w[1]].val.m);
    RankingUnique(a + [x] + b, RankingOf(s[w[1]].val.m), s[w[1]].val.m);
    RanksRemove(a, x, b, s[w[1]].val.m);
    OwnPlace(a, x, b);
    assert x == Item(x.score, x.name);
  }

  lemma ZRankOf(lib: Library, s: State, w: seq<Str>, now: nat, o: Outcome, s': State)
    requires Step(lib, s, w, now, o, s') && Asks(w, "ZRANK", 3) && HoldsSet(s, w[1])
    ensures o.Replied? && o.reply.Int?
    ensures var m := s[w[1]].val.m;
            w[2] in m ==> 1 <= o.reply.v <= LowerBound(RankingOf(m), Item(m[w[2]], w[2])) + 1
  {
    CommandsDiffer();
    hide Ascii;
    hide Upper;
    hide LowerBound;
    hide RankingOf;
  }

  lemma OwnPlace(a: seq<Item>, x: Item, b: seq<Item>)
    requires Sorted(a + [x] + b)
    ensures LowerBound(a + [x] + b, x) == |a|
  {
    var r := a + [x] + b;
    hide ZLess;
    forall y | y in a ensures ZLess(y, x) {
      var i :| 0 <= i < |a| && a[i] == y;
      assert ZLess(r[i], r[|a|]);
    }
    forall y | y in [x] + b ensures !ZLess(y, x) {
      var i :| 0 <= i < |[x] + b| && ([x] + b)[i] == y;
      ZLessIrreflexive(x);
      if i > 0 {
        assert ZLess(r[|a|], r[|a| + i]);
        ZLessAsym(x, y);
      }
    }
    LowerBoundIs(a, [x] + b, x);
    assert a + ([x] + b) == r;
  }

  lemma ZLessAsym(x: Item, y: Item)
    requires ZLess(x, y)
    ensures !ZLess(y, x)
  {
    hide ZLess;
    ZLessTotal(x, y);
  }

  // ---------------------------------------------------------------- the range queries

  /** The `i`-th pair of an array is the name and the score of the element. */
  ghost predicate PairAt(lib: Library, elems: seq<Reply>, i: nat, x: Item) {
    2 * i + 1 < |elems| && elems[2 * i] == Text(x.name) && elems[2 * i + 1] == Dbl(lib.bits(x.score))
  }

  /** The pair stands for the element `i` places further up, or down. */
  ghost predicate UpAt(lib: Library, elems: seq<Reply>, r: seq<Item>, j: int, i: nat) {
    0 <= j + i < |r| && PairAt(lib, elems, i, r[j + i])
  }

  ghost predicate DownAt(lib: Library, elems: seq<Reply>, r: seq<Item>, j: int, i: nat) {
    0 <= j - i < |r| && PairAt(lib, elems, i, r[j - i])
  }

  /** How many of the `room` elements there are from a place on, if it is one. */
  function Clipped(room: int, there: bool, limit: int): nat {
    if !there || room <= 0 || limit <= 0 then 0 else if limit < room then limit else room
  }

  /** An accepted query upward: the elements of `a` are less than the key, those of `b` are not. The
      answer begins `offset` places from the first of `b` and goes up, element by element. */
  lemma ZQueryGeAnswers(lib: Library, s: State, w: seq<Str>, now: nat, o: Outcome, s': State,
                        a: seq<Item>, b: seq<Item>)
    requires Step(lib, s, w, now, o, s') && Asks(w, "ZQUERYGE", 6)
    requires HoldsSet(s, w[1]) && Ranks(a + b, s[w[1]].val.m)
    requires lib.stod(w[2]).Value? && lib.stol(w[4]).Value? && lib.stol(w[5]).Value?
    requires forall x :: x in a ==> ZLess(x, Item(lib.stod(w[2]).v, w[3]))
    requires forall x :: x in b ==> !ZLess(x, Item(lib.stod(w[2]).v, w[3]))
    ensures s' == s && o.Replied? && o.reply.Arr?
    ensures var r, j, limit := a + b, |a| + lib.stol(w[4]).v, lib.stol(w[5]).v;
            var n := Clipped(|r| - j, b != [] && 0 <= j, limit);
            && |o.reply.elems| == 2 * n
            && forall i :: 0 <= i < n ==> UpAt(lib, o.reply.elems, r, j, i)
  {
    hide Step;
    hide Upper;
    hide Ascii;
    hide ZLess;
    hide Sorted;
    hide Ranks;
    hide RankingOf;
    hide LowerBound;
    hide UpperBound;
    hide QueryGe;
    hide QueryLe;
    hide Upward;
    hide Downward;
    hide Pairs;
    hide UpAt;
    hide DownAt;
    var m, key, j, limit := s[w[1]].val.m, Item(lib.stod(w[2]).v, w[3]), |a| + lib.stol(w[4]).v, lib.stol(w[5]).v;
    ZQueryGeOf(lib, s, w, now, o, s');
    RankingOfRanks(m);
    RankingUnique(a + b, RankingOf(m), m);
    LowerBoundIs(a, b, key);
    QueryGeOf(m, key, lib.stol(w[4]).v, limit, a, b);
    UpwardAt(lib, a + b, if b == [] then -1 else j, limit);
  }

  lemma ZQueryGeOf(lib: Library, s: State, w: seq<Str>, now: nat, o: Outcome, s': State)
    requires Step(lib, s, w, now, o, s') && Asks(w, "ZQUERYGE", 6) && HoldsSet(s, w[1])
    requires lib.stod(w[2]).Value? && lib.stol(w[4]).Value? && lib.stol(w[5]).Value?
    ensures s' == s
    ensures o == Replied(Arr(Pairs(lib, QueryGe(s[w[1]].val.m, Item(lib.stod(w[2]).v, w[3]), lib.stol(w[4]).v,
                                                lib.stol(w[5]).v))))
  {
    CommandsDiffer();
    hide Ascii;
    hide Upper;
    hide Pairs;
    hide QueryGe;
    hide QueryLe;
  }

  lemma QueryGeOf(m: map<Str, real>, key: Item, offset: int, limit: int, a: seq<Item>, b: seq<Item>)
    requires RankingOf(m) == a + b && LowerBound(a + b, key) == |a|
    ensures QueryGe(m, key, offset, limit) == Upward(a + b, if b == [] then -1 else |a| + offset, limit)
  {
    hide Upward;
    hide LowerBound;
    hide RankingOf;
    EmptyRange(a + b, limit);
  }

  lemma EmptyRange(r: seq<Item>, limit: int)
    ensures Upward(r, -1, limit) == [] == Downward(r, -1, limit)
  {
  }

  lemma UpwardAt(lib: Library, r: seq<Item>, j: int, limit: int)
    ensures var elems, n := Pairs(lib, Upward(r, j, limit)), Clipped(|r| - j, 0 <= j, limit);
            && |elems| == 2 * n
            && forall i :: 0 <= i < n ==> UpAt(lib, elems, r, j, i)
  {
    hide Pairs;
    hide PairAt;
    var s, n := Upward(r, j, limit), Clipped(|r| - j, 0 <= j, limit);
    PairsAt(lib, s);
    forall i | 0 <= i < n ensures UpAt(lib, Pairs(lib, s), r, j, i) {
      assert s[i] == r[j + i];
    }
  }

  lemma {:induction false} PairsAt(lib: Library, s: seq<Item>)
    ensures |Pairs(lib, s)| == 2 * |s|
    ensures forall i :: 0 <= i < |s| ==> PairAt(lib, Pairs(lib, s), i, s[i])
  {
    if s != [] {
      PairsAt(lib, s[1..]);
      var p, rest := Pairs(lib, s), Pairs(lib, s[1..]);
      assert p == [Text(s[0].name), Dbl(lib.bits(s[0].score))] + rest;
      forall i | 0 <= i < |s| ensures PairAt(lib, p, i, s[i]) {
        if i > 0 {
          assert PairAt(lib, rest, i - 1, s[1..][i - 1]);
          assert p[2 * i] == rest[2 * (i - 1)] && p[2 * i + 1] == rest[2 * (i - 1) + 1];
        }
      }
    }
  }

  /** An accepted query downward: the elements of `a` are not greater than the key, those of `b` are.
      The answer begins `offset` places from the last of `a` and goes down. */
  lemma ZQueryLeAnswers(lib: Library, s: State, w: seq<Str>, now: nat, o: Outcome, s': State,
                        a: seq<Item>, b: seq<Item>)
    requires Step(lib, s, w, now, o, s') && Asks(w, "ZQUERYLE", 6)
    requires HoldsSet(s, w[1]) && Ranks(a + b, s[w[1]].val.m)
    requires lib.stod(w[2]).Value? && lib.stol(w[4]).Value? && lib.stol(w[5]).Value?
    requires forall x :: x in a ==> !ZLess(Item(lib.stod(w[2]).v, w[3]), x)
    requires forall x :: x in b ==> ZLess(Item(lib.stod(w[2]).v, w[3]), x)
    ensures s' == s && o.Replied? && o.reply.Arr?
    ensures var r, j, limit := a + b, |a| - 1 + lib.stol(w[4]).v, lib.stol(w[5]).v;
            var n := Clipped(j + 1, a != [] && j < |r|, limit);
            && |o.reply.elems| == 2 * n
            && forall i :: 0 <= i < n ==> DownAt(lib, o.reply.elems, r, j, i)
  {
    hide Step;
    hide Upper;
    hide Ascii;
    hide ZLess;
    hide Sorted;
    hide Ranks;
    hide RankingOf;
    hide LowerBound;
    hide UpperBound;
    hide QueryGe;
    hide QueryLe;
    hide Upward;
    hide Downward;
    hide Pairs;
    hide UpAt;
    hide DownAt;
    var m, key := s[w[1]].val.m, Item(lib.stod(w[2]).v, w[3]);
    var j, limit := |a| - 1 + lib.stol(w[4]).v, lib.stol(w[5]).v;
    ZQueryLeOf(lib, s, w, now, o, s');
    RankingOfRanks(m);
    RankingUnique(a + b, RankingOf(m), m);
    forall x | x in a + b ensures ZGreater(x, key) <==> ZLess(key, x) {
      ZLessTotal(x, key);
    }
    UpperBoundIs(a, b, key);
    QueryLeOf(m, key, lib.stol(w[4]).v, limit, a, b);
    DownwardAt(lib, a + b, if a == [] then -1 else j, limit);
  }

  lemma ZQueryLeOf(lib: Library, s: State, w: seq<Str>, now: nat, o: Outcome, s': State)
    requires Step(lib, s, w, now, o, s') && Asks(w, "ZQUERYLE", 6) && HoldsSet(s, w[1])
    requires lib.stod(w[2]).Value? && lib.stol(w[4]).Value? && lib.stol(w[5]).Value?
    ensures s' == s
    ensures o == Replied(Arr(Pairs(lib, QueryLe(s[w[1]].val.m, Item(lib.stod(w[2]).v, w[3]), lib.stol(w[4]).v,
                                                lib.stol(w[5]).v))))
  {
    CommandsDiffer();
    hide Ascii;
    hide Upper;
    hide Pairs;
    hide QueryGe;
    hide QueryLe;
  }

  lemma QueryLeOf(m: map<Str, real>, key: Item, offset: int, limit: int, a: seq<Item>, b: seq<Item>)
    requires RankingOf(m) == a + b && UpperBound(a + b, key) == |a|
    ensures QueryLe(m, key, offset, limit) == Downward(a + b, if a == [] then -1 else |a| - 1 + offset, limit)
  {
    hide Downward;
    hide UpperBound;
    hide RankingOf;
    EmptyRange(a + b, limit);
  }

  lemma DownwardAt(lib: Library, r: seq<Item>, j: int, limit: int)
    ensures var elems, n := Pairs(lib, Downward(r, j, limit)), Clipped(j + 1, j < |r|, limit);
            && |elems| == 2 * n
            && forall i :: 0 <= i < n ==> DownAt(lib, elems, r, j, i)
  {
    hide *;
    var s := Downward(r, j, limit);
    DownwardIs(r, j, limit);
    PairsAt(lib, s);
    forall i | 0 <= i < |s| ensures DownAt(lib, Pairs(lib, s), r, j, i) {
      assert Downward(r, j, limit)[i] == s[i];
      assert s[i] == r[j - i];
      PairDown(lib, Pairs(lib, s), r, j, i);
    }
  }

  lemma PairDown(lib: Library, elems: seq<Reply>, r: seq<Item>, j: int, i: nat)
    requires 0 <= j - i < |r| && PairAt(lib, elems, i, r[j - i])
    ensures DownAt(lib, elems, r, j, i)
  {
  }

  lemma DownwardIs(r: seq<Item>, j: int, limit: int)
    ensures |Downward(r, j, limit)| == Clipped(j + 1, j < |r|, limit)
    ensures forall i :: 0 <= i < |Downward(r, j, limit)| ==>
              0 <= j - i < |r| && Downward(r, j, limit)[i] == r[j - i]
  {
    hide Reverse;
    var n := Clipped(j + 1, j < |r|, limit);
    if n > 0 {
      var part := r[j + 1 - n..j + 1];
      ReverseAt(part);
      assert r[0..j + 1] == r[..j + 1];
      assert Downward(r, j, limit) == Reverse(part);
    }
  }

  lemma {:induction false} ReverseAt<T>(s: seq<T>)
    ensures |Reverse(s)| == |s| && forall i :: 0 <= i < |s| ==> Reverse(s)[i] == s[|s| - 1 - i]
  {
    if s != [] {
      ReverseAt(s[1..]);
    }
  }

  /** Every sorted view falls apart as the two queries ask for it. */
  lemma {:induction false} Parted(r: seq<Item>, key: Item) returns (a: seq<Item>, b: seq<Item>)
    requires Sorted(r)
    ensures r == a + b
    ensures (forall x :: x in a ==> ZLess(x, key)) && (forall x :: x in b ==> !ZLess(x, key))
  {
    hide ZLess;
    if r == [] || !ZLess(r[0], key) {
      a, b := [], r;
      forall x | x in b ensures !ZLess(x, key) {
        var i :| 0 <= i < |r| && r[i] == x;
        if ZLess(x, key) && i > 0 {
          ZLessTransitive(r[0], r[i], key);
        }
      }
    } else {
      a, b := Parted(r[1..], key);
      a := [r[0]] + a;
    }
  }

  /** What else the two queries answer: the first thing that is wrong. */
  lemma ZQueryErrors(lib: Library, s: State, w: seq<Str>, now: nat, o: Outcome, s': State)
    requires Step(lib, s, w, now, o, s') && (Asks(w, "ZQUERYGE", 6) || Asks(w, "ZQUERYLE", 6))
    ensures s' == s && (!HoldsSet(s, w[1]) ==> MissesSet(s, w[1], o, "zqueryge"))
    ensures HoldsSet(s, w[1]) && !lib.stod(w[2]).Value? ==> Complains(o, lib.stod(w[2]))
    ensures HoldsSet(s, w[1]) && lib.stod(w[2]).Value? && !lib.stol(w[4]).Value? ==> Complains(o, lib.stol(w[4]))
    ensures HoldsSet(s, w[1]) && lib.stod(w[2]).Value? && lib.stol(w[4]).Value? && !lib.stol(w[5]).Value? ==>
              Complains(o, lib.stol(w[5]))
  {
    CommandsDiffer();
    hide Ascii;
    hide Upper;
    hide Pairs;
    hide QueryGe;
    hide QueryLe;
  }

  // ---------------------------------------------------------------- the rest

  /** ECHO of no words is empty, and each further word comes last, with a blank behind it. */
  lemma EchoAnswers(lib: Library, s: State, w: seq<Str>, now: nat, o: Outcome, s': State)
    requires Step(lib, s, w, now, o, s') && Asks(w, "ECHO", |w|)
    ensures s' == s && o.Replied? && o.reply.Text?
    ensures |w| == 1 ==> o.reply.s == []
  {
    CommandsDiffer();
    hide Ascii;
    hide Upper;
  }

  lemma EchoOneMore(lib: Library, s: State, w: seq<Str>, x: Str, now: nat, o: Outcome, o': Outcome,
                    s': State, s'': State)
    requires Step(lib, s, w, now, o, s') && Step(lib, s, w + [x], now, o', s'') && Asks(w, "ECHO", |w|)
    ensures o.Replied? && o.reply.Text? && o' == Replied(Text(o.reply.s + x + [32]))
  {
    hide EchoText;
    EchoIs(lib, s, w, now, o, s');
    EchoIs(lib, s, w + [x], now, o', s'');
    EchoSnoc(w[1..], x);
    assert (w + [x])[1..] == w[1..] + [x];
    hide Step;
  }

  lemma EchoIs(lib: Library, s: State, w: seq<Str>, now: nat, o: Outcome, s': State)
    requires Step(lib, s, w, now, o, s') && Asks(w, "ECHO", |w|)
    ensures o == Replied(Text(EchoText(w[1..])))
  {
    CommandsDiffer();
    hide Ascii;
    hide Upper;
    hide EchoText;
  }

  lemma {:induction false} EchoSnoc(ws: seq<Str>, x: Str)
    ensures EchoText(ws + [x]) == EchoText(ws) + x + [32]
  {
    if ws == [] {
      assert [] + [x] == [x] && EchoText([x]) == x + [32] + EchoText([x][1..]);
      assert x + [32] + [] == [] + x + [32];
    } else {
      EchoSnoc(ws[1..], x);
      assert (ws + [x])[1..] == ws[1..] + [x];
      assert ws[0] + [32] + (EchoText(ws[1..]) + x + [32]) == (ws[0] + [32] + EchoText(ws[1..])) + x + [32];
    }
  }

  lemma SdieAnswers(lib: Library, s: State, w: seq<Str>, now: nat, o: Outcome, s': State)
    requires Step(lib, s, w, now, o, s') && IsSdie(w)
    ensures s' == s && o == Replied(Text(Ascii("killing server")))
  {
    SdieIsAlone();
    hide Ascii;
    hide Upper;
  }

  /** Any other name, or a name with another number of words, is no command. */
  lemma OthersAreUnknown(lib: Library, s: State, w: seq<Str>, now: nat, o: Outcome, s': State)
    requires Step(lib, s, w, now, o, s') && w != []
    requires !Asks(w, "GET", 2) && !Asks(w, "DEL", 2) && !Asks(w, "TTL", 2)
    requires !Asks(w, "SET", 3) && !Asks(w, "ZREM", 3) && !Asks(w, "ZRANK", 3) && !Asks(w, "EXPIRE", 3)
    requires !Asks(w, "ZADD", 4) && !Asks(w, "ZCOUNT", 4) && !Asks(w, "ZQUERYGE", 6) && !Asks(w, "ZQUERYLE", 6)
    requires !Asks(w, "ECHO", |w|) && !IsSdie(w)
    ensures s' == s && o == Replied(Err(ERR_NOT_FOUND, Ascii("command not found")))
  {
    hide Ascii;
    hide Upper;
  }
}
