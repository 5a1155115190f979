/** Whole runs of the server: requests and timer ticks in any order, from the empty keyspace. */
module Runs {
  import opened Bytes
  import opened Codec
  import opened Spec
  import opened Commands
  import opened Answers
  import opened Framing
  import opened Client
  import Order

  datatype Event = Request(w: seq<Str>, now: nat) | Tick(now: nat)

  /** An event of a run, the outcome if it was a request, and the state afterwards. */
  datatype Moment = Moment(event: Event, o: Outcome, after: State)

  ghost predicate Follows(lib: Library, s: State, m: Moment) {
    match m.event
    case Request(w, now) => Step(lib, s, w, now, m.o, m.after)
    case Tick(now) => exists removed :: Ticked(s, now, removed, m.after)
  }

  ghost function Before(s0: State, t: seq<Moment>, i: nat): State
    requires i <= |t|
  {
    if i == 0 then s0 else t[i - 1].after
  }

  ghost predicate FollowsAt(lib: Library, s0: State, t: seq<Moment>, i: nat)
    requires i < |t|
  {
    Follows(lib, Before(s0, t, i), t[i])
  }

  ghost predicate IsRun(lib: Library, s0: State, t: seq<Moment>) {
    forall i :: 0 <= i < |t| ==> FollowsAt(lib, s0, t, i)
  }

  /** The requests have come through the framing. */
  ghost predicate AllSendable(t: seq<Moment>) {
    forall m :: m in t && m.event.Request? ==> Sendable(m.event.w)
  }

  // ---------------------------------------------------------------- sizes

  /** A request "SET key value" takes 22 bytes beside its key and value. */
  const SET_BYTES: nat := 22

  ghost predicate StringsFit(s: State) {
    forall k :: k in s && s[k].val.AStr? ==> |s[k].val.s| + SET_BYTES <= MAX_MSG
  }

  function Total(ws: seq<Str>): nat {
    if ws == [] then 0 else |ws[0]| + Total(ws[1..])
  }

  lemma {:induction false} RequestLength(ws: seq<Str>)
    ensures |EncodeWords(ws)| == 5 * |ws| + Total(ws)
  {
    if ws != [] {
      RequestLength(ws[1..]);
    }
  }

  lemma {:induction false} EchoLength(ws: seq<Str>)
    ensures |EchoText(ws)| == |ws| + Total(ws)
  {
    if ws != [] {
      EchoLength(ws[1..]);
    }
  }

  lemma SetLength(w: seq<Str>)
    requires |w| == 3 && Upper(w[0]) == Ascii("SET") && Sendable(w)
    ensures |w[2]| + SET_BYTES <= MAX_MSG
  {
    RequestLength(w);
    assert Total(w) == |w[0]| + Total(w[1..]) == |w[0]| + |w[1]| + Total(w[1..][1..]);
    assert Total(w[1..][1..]) == |w[2]| + Total(w[1..][1..][1..]);
  }

  lemma StepKeepsStringsFit(lib: Library, s: State, w: seq<Str>, now: nat, o: Outcome, s': State)
    requires Step(lib, s, w, now, o, s') && StringsFit(s) && Sendable(w)
    ensures StringsFit(s')
  {
    hide Ascii;
    hide Upper;
    hide Sendable;
    if |w| == 3 && Upper(w[0]) == Ascii("SET") {
      SetLength(w);
    }
  }

  lemma TickKeepsStringsFit(s: State, now: nat, removed: seq<Str>, s': State)
    requires Ticked(s, now, removed, s') && StringsFit(s)
    ensures StringsFit(s')
  {
  }

  lemma FollowsKeepsStringsFit(lib: Library, s: State, m: Moment)
    requires Follows(lib, s, m) && StringsFit(s) && (m.event.Request? ==> Sendable(m.event.w))
    ensures StringsFit(m.after)
  {
    hide Step;
    hide Ticked;
    hide Sendable;
    hide StringsFit;
    match m.event
    case Request(w, now) => StepKeepsStringsFit(lib, s, w, now, m.o, m.after);
    case Tick(now) =>
      var removed :| Ticked(s, now, removed, m.after);
      TickKeepsStringsFit(s, now, removed, m.after);
  }

  lemma EmptyFits()
    ensures StringsFit(map[])
  {
  }

  lemma {:induction false} RunKeepsStringsFit(lib: Library, t: seq<Moment>, i: nat)
    requires IsRun(lib, map[], t) && AllSendable(t) && i <= |t|
    ensures StringsFit(Before(map[], t, i))
  {
    hide Follows;
    hide Sendable;
    hide StringsFit;
    EmptyFits();
    if i > 0 {
      RunKeepsStringsFit(lib, t, i - 1);
      assert FollowsAt(lib, map[], t, i - 1) && t[i - 1] in t;
      FollowsKeepsStringsFit(lib, Before(map[], t, i - 1), t[i - 1]);
    }
  }

  // ---------------------------------------------------------------- where strings come from

  ghost predicate IsSetOf(w: seq<Str>, k: Str, v: Str) {
    |w| == 3 && Upper(w[0]) == Ascii("SET") && w[1] == k && w[2] == v
  }

  ghost predicate SetAt(t: seq<Moment>, j: nat, k: Str, v: Str)
    requires j < |t|
  {
    t[j].event.Request? && IsSetOf(t[j].event.w, k, v) && t[j].o == Replied(Nil)
  }

  lemma StepOrigin(lib: Library, s: State, w: seq<Str>, now: nat, o: Outcome, s': State, k: Str)
    requires Step(lib, s, w, now, o, s') && k in s' && s'[k].val.AStr?
    ensures (k in s && s[k].val == s'[k].val) || (IsSetOf(w, k, s'[k].val.s) && o == Replied(Nil))
  {
    hide Ascii;
    hide Upper;
  }

  /** Every string in the keyspace is the value of an accepted SET request earlier in the run. */
  lemma {:induction false} StringsComeFromSet(lib: Library, t: seq<Moment>, i: nat, k: Str) returns (j: nat)
    requires IsRun(lib, map[], t) && i <= |t|
    requires k in Before(map[], t, i) && Before(map[], t, i)[k].val.AStr?
    ensures j < i && SetAt(t, j, k, Before(map[], t, i)[k].val.s)
  {
    hide Step;
    hide Ticked;
    hide IsSetOf;
    var s, m := Before(map[], t, i - 1), t[i - 1];
    assert FollowsAt(lib, map[], t, i - 1);
    j := i - 1;
    match m.event
    case Request(w, now) =>
      StepOrigin(lib, s, w, now, m.o, m.after, k);
      if !SetAt(t, i - 1, k, m.after[k].val.s) {
        j := StringsComeFromSet(lib, t, i - 1, k);
      }
    case Tick(now) =>
      var removed :| Ticked(s, now, removed, m.after);
      TickOrigin(s, now, removed, m.after, k);
      j := StringsComeFromSet(lib, t, i - 1, k);
  }

  lemma TickOrigin(s: State, now: nat, removed: seq<Str>, s': State, k: Str)
    requires Ticked(s, now, removed, s') && k in s'
    ensures k in s && s[k] == s'[k]
  {
  }

  // ---------------------------------------------------------------- crashes

  /** What ends the process: no words, a lifetime asked for where there is none, scores that are no
      numbers. */
  ghost predicate Fatal(lib: Library, s: State, w: seq<Str>) {
    || w == []
    || (|w| == 2 && Upper(w[0]) == Ascii("TTL") && w[1] in s && s[w[1]].deadline.None?)
    || (|w| == 4 && Upper(w[0]) == Ascii("ZCOUNT") && IsSet(s, w[1])
        && !(lib.stod(w[2]).Value? && lib.stod(w[3]).Value?))
  }

  lemma CrashStep(lib: Library, s: State, w: seq<Str>, now: nat, o: Outcome, s': State)
    requires Step(lib, s, w, now, o, s') && StringsFit(s)
    ensures o == Crashed <==> Fatal(lib, s, w)
    ensures o == Crashed ==> s' == s
  {
    CommandsDiffer();
    hide Ascii;
    hide Upper;
  }

  /** In a run from the empty keyspace a request is lost exactly if it is one of the fatal ones; in
      particular the size assertion of GET never fails, because every stored string has come in a
      request that fits a message. */
  lemma OnlyFatalRequestsCrash(lib: Library, t: seq<Moment>, i: nat)
    requires IsRun(lib, map[], t) && AllSendable(t) && i < |t| && t[i].event.Request?
    ensures t[i].o == Crashed <==> Fatal(lib, Before(map[], t, i), t[i].event.w)
  {
    hide Step;
    hide Fatal;
    RunKeepsStringsFit(lib, t, i);
    assert FollowsAt(lib, map[], t, i);
    CrashStep(lib, Before(map[], t, i), t[i].event.w, t[i].event.now, t[i].o, t[i].after);
  }

  /** A key without a deadline can be reached, and then asking for its lifetime is fatal. */
  lemma TtlCanCrash(lib: Library, k: Str, v: Str, minus: Str, now: nat) returns (t: seq<Moment>)
    requires lib.stoi(minus).Value? && lib.stoi(minus).v < 0
    ensures |t| == 3 && IsRun(lib, map[], t) && t[2].o == Crashed
    ensures t[0].event == Request([Ascii("SET"), k, v], now)
    ensures t[1].event == Request([Ascii("EXPIRE"), k, minus], now)
    ensures t[2].event == Request([Ascii("TTL"), k], now)
  {
    var s1: State := map[k := AbsEntry(AStr(v), Some(now + DEFAULT_TTL_MS))];
    var s2: State := map[k := AbsEntry(AStr(v), None)];
    var w0, w1, w2 := [Ascii("SET"), k, v], [Ascii("EXPIRE"), k, minus], [Ascii("TTL"), k];
    UpperNames();
    CommandsDiffer();
    hide Ascii;
    hide Upper;
    t := [Moment(Request(w0, now), Replied(Nil), s1), Moment(Request(w1, now), Replied(Nil), s2),
          Moment(Request(w2, now), Crashed, s2)];
    assert s1 == map[][k := AbsEntry(AStr(v), Some(now + DEFAULT_TTL_MS))];
    assert Step(lib, map[], w0, now, Replied(Nil), s1);
    assert s2 == s1[k := s1[k].(deadline := None)];
    assert Step(lib, s1, w1, now, Replied(Nil), s2);
    assert Step(lib, s2, w2, now, Crashed, s2);
  }

  lemma UpperNames()
    ensures Upper(Ascii("SET")) == Ascii("SET") && Upper(Ascii("EXPIRE")) == Ascii("EXPIRE")
    ensures Upper(Ascii("TTL")) == Ascii("TTL")
    ensures Ascii("EXPIRE") !in {Ascii("SET"), Ascii("ZREM"), Ascii("ZRANK")}
  {
  }

  lemma EmptyRequestCrashes(lib: Library, now: nat) returns (t: seq<Moment>)
    ensures |t| == 1 && IsRun(lib, map[], t) && AllSendable(t)
    ensures t[0].event == Request([], now) && t[0].o == Crashed
  {
    t := [Moment(Request([], now), Crashed, map[])];
  }

  lemma ZCountCanCrash(lib: Library, k: Str, score: Str, name: Str, no: Str, now: nat) returns (t: seq<Moment>)
    requires lib.stod(score).Value? && !lib.stod(no).Value?
    ensures |t| == 2 && IsRun(lib, map[], t) && t[1].o == Crashed
    ensures t[0].event == Request([Ascii("ZADD"), k, score, name], now)
    ensures t[1].event == Request([Ascii("ZCOUNT"), k, no, no], now)
  {
    var m: map<Str, real> := map[name := lib.stod(score).v];
    var s1: State := map[k := AbsEntry(ASet(m), Some(now + DEFAULT_TTL_MS))];
    var w0, w1 := [Ascii("ZADD"), k, score, name], [Ascii("ZCOUNT"), k, no, no];
    UpperSetNames();
    CommandsDiffer();
    hide Ascii;
    hide Upper;
    t := [Moment(Request(w0, now), Replied(Nil), s1), Moment(Request(w1, now), Crashed, s1)];
    assert m == map[][name := lib.stod(score).v];
    assert s1 == map[][k := AbsEntry(ASet(m), Some(now + DEFAULT_TTL_MS))];
    assert Step(lib, map[], w0, now, Replied(Nil), s1);
    assert Step(lib, s1, w1, now, Crashed, s1);
  }

  lemma UpperSetNames()
    ensures Upper(Ascii("ZADD")) == Ascii("ZADD") && Upper(Ascii("ZCOUNT")) == Ascii("ZCOUNT")
    ensures Upper(Ascii("ZQUERYGE")) == Ascii("ZQUERYGE")
  {
  }

  // ---------------------------------------------------------------- a response that does not fit

  const HALF: nat := 600000

  lemma {:induction false} NamesTotal(lib: Library, s: seq<Order.Item>)
    requires forall x :: x in s ==> |x.name| == HALF
    ensures |EncodeAll(Pairs(lib, s))| >= |s| * HALF
  {
    hide LE;
    if s != [] {
      assert s[0] in s;
      NamesTotal(lib, s[1..]);
      var p, x := Pairs(lib, s), s[0];
      assert p[0] == Text(x.name) && p[1..][0] == Dbl(lib.bits(x.score)) && p[1..][1..] == Pairs(lib, s[1..]);
      assert EncodeAll(p) == Encode(p[0]) + (Encode(p[1..][0]) + EncodeAll(p[1..][1..]));
    }
  }

  /** A set of two elements with long names, all of it asked for. */
  lemma WholeQuery(lib: Library, m: map<Str, real>, a: Str, b: Str, score: real, limit: int)
    requires a != b && |a| == |b| == HALF && m == map[a := score, b := score] && limit >= 2
    ensures |Encode(Arr(Pairs(lib, QueryGe(m, Order.Item(score, []), 0, limit))))| > MAX_MSG
  {
    hide LE;
    hide Pairs;
    hide EncodeAll;
    hide Order.Sorted;
    var s, key := RankingOf(m), Order.Item(score, []);
    RankingOfRanks(m);
    Order.RanksSize(s, m);
    assert m.Keys == {a, b};
    assert s[0] in s && !Order.ZLess(s[0], key);
    assert LowerBound(s, key) == 0;
    assert QueryGe(m, key, 0, limit) == s;
    NamesTotal(lib, s);
  }

  lemma AddTwo(m: map<Str, real>, a: Str, b: Str, score: real)
    requires a != b && m == map[a := score]
    ensures m[b := score] == map[a := score, b := score]
  {
  }

  /** Three requests, each of which fits a message, the last with a reply that does not: what
      `Connections.ResponseEnd` gives up for an error can be reached. */
  lemma LongReplyCanHappen(lib: Library, k: Str, score: Str, zero: Str, limit: Str, now: nat) returns (t: seq<Moment>)
    requires |k| <= 100 && |score| <= 100 && |zero| <= 100 && |limit| <= 100
    requires lib.stod(score).Value? && lib.stol(zero) == Value(0) && lib.stol(limit).Value? && lib.stol(limit).v >= 2
    ensures |t| == 3 && IsRun(lib, map[], t) && AllSendable(t)
    ensures forall i :: 0 <= i < 2 ==>
              t[i].event.Request? && |t[i].event.w| == 4 && t[i].event.w[..3] == [Ascii("ZADD"), k, score]
    ensures t[2].event == Request([Ascii("ZQUERYGE"), k, score, [], zero, limit], now)
    ensures t[2].o.Replied? && |Encode(t[2].o.reply)| > MAX_MSG
  {
    hide *;
    var a, b := LongNames();
    var v := lib.stod(score).v;
    var m1: map<Str, real>, m2: map<Str, real> := map[a := v], map[a := v, b := v];
    var d := Some(now + DEFAULT_TTL_MS);
    var s1: State, s2: State := map[k := AbsEntry(ASet(m1), d)], map[k := AbsEntry(ASet(m2), d)];
    var w0, w1 := [Ascii("ZADD"), k, score, a], [Ascii("ZADD"), k, score, b];
    var w2 := [Ascii("ZQUERYGE"), k, score, [], zero, limit];
    var reply := Arr(Pairs(lib, QueryGe(m2, Order.Item(v, []), 0, lib.stol(limit).v)));
    NameLengths();
    FourWords(w0);
    FourWords(w1);
    SixWords(w2);
    WholeQuery(lib, m2, a, b, v, lib.stol(limit).v);
    AddTwo(m1, a, b, v);
    ZAddStep(lib, map[], k, score, a, now);
    ZAddStep(lib, s1, k, score, b, now);
    ZQueryStep(lib, s2, k, score, zero, limit, now);
    assert m1 == map[][a := v] && s1 == map[][k := AbsEntry(ASet(m1), d)] && s2 == s1[k := AbsEntry(ASet(m2), d)];
    t := [Moment(Request(w0, now), Replied(Nil), s1), Moment(Request(w1, now), Replied(Nil), s2),
          Moment(Request(w2, now), Replied(reply), s2)];
    ThreeSteps(lib, w0, w1, w2, now, s1, s2, t);
    assert w0[..3] == w1[..3] == [Ascii("ZADD"), k, score];
  }

  lemma LongNames() returns (a: Str, b: Str)
    ensures a != b && |a| == |b| == HALF == 600000
  {
    a, b := seq(HALF, _ => 97 as Byte), seq(HALF, _ => 98 as Byte);
    assert a[0] != b[0];
  }

  lemma NameLengths()
    ensures |Ascii("ZADD")| == 4 && |Ascii("ZQUERYGE")| == 8 && HALF + 400 <= MAX_MSG
  {
  }

  lemma ZAddStep(lib: Library, s: State, k: Str, score: Str, name: Str, now: nat)
    requires lib.stod(score).Value? && (k in s ==> s[k].val.ASet?)
    ensures var m := if k in s then s[k].val.m else map[];
            Step(lib, s, [Ascii("ZADD"), k, score, name], now, Replied(Nil),
                 s[k := AbsEntry(ASet(m[name := lib.stod(score).v]), Some(now + DEFAULT_TTL_MS))])
  {
    UpperSetNames();
    hide Ascii;
    hide Upper;
  }

  lemma ZQueryStep(lib: Library, s: State, k: Str, score: Str, zero: Str, limit: Str, now: nat)
    requires lib.stod(score).Value? && lib.stol(zero) == Value(0) && lib.stol(limit).Value? && k in s && s[k].val.ASet?
    ensures var key := Order.Item(lib.stod(score).v, []);
            Step(lib, s, [Ascii("ZQUERYGE"), k, score, [], zero, limit], now,
                 Replied(Arr(Pairs(lib, QueryGe(s[k].val.m, key, 0, lib.stol(limit).v)))), s)
  {
    UpperSetNames();
    hide Ascii;
    hide Upper;
    hide Pairs;
    hide QueryGe;
  }

  lemma ThreeSteps(lib: Library, w0: seq<Str>, w1: seq<Str>, w2: seq<Str>, now: nat, s1: State, s2: State,
                   t: seq<Moment>)
    requires |t| == 3 && t[0] == Moment(Request(w0, now), Replied(Nil), s1)
    requires t[1] == Moment(Request(w1, now), Replied(Nil), s2) && t[2].event == Request(w2, now) && t[2].after == s2
    requires Step(lib, map[], w0, now, Replied(Nil), s1) && Step(lib, s1, w1, now, Replied(Nil), s2)
    requires Step(lib, s2, w2, now, t[2].o, s2) && Sendable(w0) && Sendable(w1) && Sendable(w2)
    ensures IsRun(lib, map[], t) && AllSendable(t)
  {
    hide Step;
    hide Sendable;
  }

  lemma FourWords(w: seq<Str>)
    requires |w| == 4 && |w[0]| + |w[1]| + |w[2]| + |w[3]| + 24 <= MAX_MSG
    ensures Sendable(w)
  {
    RequestLength(w);
    assert Total(w) == |w[0]| + Total(w[1..]) && Total(w[1..]) == |w[1]| + Total(w[1..][1..]);
    assert Total(w[1..][1..]) == |w[2]| + Total(w[1..][1..][1..]);
    assert w[1..][1..][1..] == [w[3]] && Total([w[3]]) == |w[3]| + Total([]);
  }

  lemma SixWords(w: seq<Str>)
    requires |w| == 6 && |w[0]| + |w[1]| + |w[2]| + |w[3]| + |w[4]| + |w[5]| + 34 <= MAX_MSG
    ensures Sendable(w)
  {
    RequestLength(w);
    RequestLength(w[2..]);
    FourWords(w[2..]);
    assert Total(w) == |w[0]| + Total(w[1..]) && Total(w[1..]) == |w[1]| + Total(w[1..][1..]) && w[1..][1..] == w[2..];
    var u := w[2..];
    assert Total(u) == |u[0]| + Total(u[1..]) && Total(u[1..]) == |u[1]| + Total(u[1..][1..]);
    assert Total(u[1..][1..]) == |u[2]| + Total(u[1..][1..][1..]);
    assert u[1..][1..][1..] == [u[3]] && Total([u[3]]) == |u[3]| + Total([]);
  }

  // ---------------------------------------------------------------- answers that mean less than they say

  /** ZREM answers 1; that is the number of elements removed if and only if there was one to remove. */
  lemma ZRemAnswer(lib: Library, s: State, w: seq<Str>, now: nat, o: Outcome, s': State)
    requires Step(lib, s, w, now, o, s') && Asks(w, "ZREM", 3) && HoldsSet(s, w[1])
    ensures HoldsSet(s', w[1]) && o == Replied(Int(1))
    ensures o == Replied(Int(|s[w[1]].val.m| - |s'[w[1]].val.m|)) <==> w[2] in s[w[1]].val.m
  {
    hide Step;
    hide Ascii;
    hide Upper;
    ZRemAnswers(lib, s, w, now, o, s');
    var m, m' := s[w[1]].val.m, s'[w[1]].val.m;
    assert |m| == |m.Keys| && |m'| == |m'.Keys|;
    if w[2] in m {
      assert m.Keys == m'.Keys + {w[2]};
    } else {
      assert m.Keys == m'.Keys;
    }
  }

  /** TTL answers with the deadline; that is the time left if and only if the clock stands at 0. */
  lemma TtlAnswer(lib: Library, s: State, w: seq<Str>, now: nat, o: Outcome, s': State)
    requires Step(lib, s, w, now, o, s') && Asks(w, "TTL", 2) && w[1] in s && s[w[1]].deadline.Some?
    ensures o == Replied(Int(s[w[1]].deadline.value - now)) <==> now == 0
  {
    TtlAnswers(lib, s, w, now, o, s');
  }

  // ---------------------------------------------------------------- responses that fit

  /** GET and ECHO answer within a message. */
  lemma GetAndEchoFit(lib: Library, t: seq<Moment>, i: nat)
    requires IsRun(lib, map[], t) && AllSendable(t) && i < |t| && t[i].event.Request?
    requires var w := t[i].event.w;
             w != [] && ((|w| == 2 && Upper(w[0]) == Ascii("GET")) || Upper(w[0]) == Ascii("ECHO"))
    ensures t[i].o.Replied? && |Encode(t[i].o.reply)| <= MAX_MSG
  {
    RunKeepsStringsFit(lib, t, i);
    var w := t[i].event.w;
    assert FollowsAt(lib, map[], t, i) && t[i] in t;
    RequestLength(w);
    EchoLength(w[1..]);
    CommandsDiffer();
    hide Ascii;
    hide Upper;
  }

  /** Deadlines, and numbers of elements, fit the 64 bits of an integer. */
  ghost predicate Narrow(s: State) {
    forall k :: k in s ==>
      && (s[k].deadline.Some? ==> s[k].deadline.value < 0x8000_0000_0000_0000)
      && (s[k].val.ASet? ==> |s[k].val.m| < 0x7fff_ffff_ffff_ffff)
  }

  /** The client can show whatever the server answers. */
  lemma RepliesAreServable(lib: Library, s: State, w: seq<Str>, now: nat, o: Outcome, s': State)
    requires Step(lib, s, w, now, o, s') && o.Replied?
    ensures o.reply.Int? || Servable(o.reply)
    ensures Narrow(s) ==> Servable(o.reply)
  {
    if o.reply.Int? && Narrow(s) {
      IntegersFit(lib, s, w, now, o, s');
    }
    hide Ascii;
    hide Upper;
    if o.reply.Arr? {
      var items := if Upper(w[0]) == Ascii("ZQUERYGE")
                   then QueryGe(s[w[1]].val.m, Order.Item(lib.stod(w[2]).v, w[3]), lib.stol(w[4]).v, lib.stol(w[5]).v)
                   else QueryLe(s[w[1]].val.m, Order.Item(lib.stod(w[2]).v, w[3]), lib.stol(w[4]).v, lib.stol(w[5]).v);
      PairsArePlain(lib, items);
    }
  }

  lemma {:induction false} BoundWithin(s: seq<Order.Item>, key: Order.Item)
    ensures LowerBound(s, key) <= |s|
  {
    if s != [] {
      BoundWithin(s[1..], key);
    }
  }

  lemma SetAnswersFit(s: State, k: Str, name: Str, lo: real, hi: real)
    requires IsSet(s, k) && Narrow(s)
    ensures forall r :: ZRankMay(s[k].val.m, name, r) ==> 0 <= r < 0x8000_0000_0000_0000
    ensures |Between(s[k].val.m, lo, hi)| < 0x8000_0000_0000_0000
  {
    var m := s[k].val.m;
    RankingOfRanks(m);
    Order.RanksSize(RankingOf(m), m);
    if name in m {
      BoundWithin(RankingOf(m), Order.Item(m[name], name));
    }
    SubsetSize(Between(m, lo, hi), m.Keys);
  }

  lemma IntegersFit(lib: Library, s: State, w: seq<Str>, now: nat, o: Outcome, s': State)
    requires Step(lib, s, w, now, o, s') && o.Replied? && o.reply.Int? && Narrow(s)
    ensures Plain(o.reply)
  {
    hide Ascii;
    hide Upper;
    hide ZRankMay;
    hide Between;
    if |w| >= 3 && IsSet(s, w[1]) {
      SetAnswersFit(s, w[1], w[2], if |w| == 4 && lib.stod(w[2]).Value? then lib.stod(w[2]).v else 0.0,
                    if |w| == 4 && lib.stod(w[3]).Value? then lib.stod(w[3]).v else 0.0);
    }
  }

  lemma {:induction false} PairsArePlain(lib: Library, s: seq<Order.Item>)
    ensures forall r :: r in Pairs(lib, s) ==> Plain(r)
  {
    if s != [] {
      PairsArePlain(lib, s[1..]);
    }
  }

  // ---------------------------------------------------------------- what a request leaves alone

  predicate IsZRank(w: seq<Str>) {
    |w| == 3 && Upper(w[0]) == Ascii("ZRANK")
  }

  /** Only the rank that ZRANK reports is not determined by the state, the request and the time. */
  lemma StepDetermined(lib: Library, s: State, w: seq<Str>, now: nat, o1: Outcome, s1: State, o2: Outcome, s2: State)
    requires Step(lib, s, w, now, o1, s1) && Step(lib, s, w, now, o2, s2)
    ensures s1 == s2
    ensures !IsZRank(w) ==> o1 == o2
  {
    hide *;
    if IsZRank(w) {
      ZRankDetermined(lib, s, w, now, o1, s1, o2, s2);
    } else {
      OthersDetermined(lib, s, w, now, o1, s1, o2, s2);
    }
  }

  lemma ZRankDetermined(lib: Library, s: State, w: seq<Str>, now: nat, o1: Outcome, s1: State, o2: Outcome, s2: State)
    requires Step(lib, s, w, now, o1, s1) && Step(lib, s, w, now, o2, s2) && IsZRank(w)
    ensures s1 == s2
  {
    CommandsDiffer();
    hide Ascii;
    hide Upper;
  }

  lemma OthersDetermined(lib: Library, s: State, w: seq<Str>, now: nat, o1: Outcome, s1: State, o2: Outcome, s2: State)
    requires Step(lib, s, w, now, o1, s1) && Step(lib, s, w, now, o2, s2) && !IsZRank(w)
    ensures s1 == s2 && o1 == o2
  {
    hide *;
    var a := OneAnswer(lib, s, w, now);
    assert (s1, o1) == a == (s2, o2);
  }

  lemma OneAnswer(lib: Library, s: State, w: seq<Str>, now: nat) returns (a: (State, Outcome))
    requires !IsZRank(w)
    ensures forall o, s' :: Step(lib, s, w, now, o, s') ==> (s', o) == a
  {
    hide Ascii;
    hide Upper;
    hide Get;
    hide SetCmd;
    hide DelCmd;
    hide ZAdd;
    hide ZRem;
    hide ZQuery;
    hide ZCount;
    hide ZRankStep;
    hide Expire;
    hide Ttl;
    hide EchoText;
    if o, s' :| Step(lib, s, w, now, o, s') {
      a := (s', o);
    } else {
      a := (s, Crashed);
    }
  }

  ghost predicate Names(w: seq<Str>, k: Str) {
    |w| >= 2 && w[1] == k
  }

  ghost predicate SameAt(s: State, s': State, k: Str) {
    (k in s <==> k in s') && (k in s ==> s'[k] == s[k])
  }

  lemma StepKeepsOthers(lib: Library, s: State, w: seq<Str>, now: nat, o: Outcome, s': State, k: Str)
    requires Step(lib, s, w, now, o, s') && !Names(w, k)
    ensures SameAt(s, s', k)
  {
    hide Ascii;
    hide Upper;
  }

  lemma TickKeepsLive(s: State, now: nat, removed: seq<Str>, s': State, k: Str)
    requires Ticked(s, now, removed, s') && k in s && (s[k].deadline.Some? ==> now <= s[k].deadline.value)
    ensures SameAt(s, s', k)
  {
  }

  /** The event neither names the key nor is a tick after its deadline. */
  ghost predicate LeavesAlone(e: Event, k: Str, deadline: nat) {
    match e
    case Request(w, _) => !Names(w, k)
    case Tick(now) => now <= deadline
  }

  /** An entry outlives everything that leaves it alone. */
  lemma {:induction false} EntryStays(lib: Library, s0: State, t: seq<Moment>, i: nat, j: nat, k: Str)
    requires IsRun(lib, s0, t) && i <= j <= |t|
    requires k in Before(s0, t, i) && Before(s0, t, i)[k].deadline.Some?
    requires forall m :: i <= m < j ==> LeavesAlone(t[m].event, k, Due(Before(s0, t, i), k))
    ensures SameAt(Before(s0, t, i), Before(s0, t, j), k)
  {
    hide Step;
    hide Ticked;
    if i < j {
      EntryStays(lib, s0, t, i, j - 1, k);
      var s, m := Before(s0, t, j - 1), t[j - 1];
      assert FollowsAt(lib, s0, t, j - 1) && LeavesAlone(m.event, k, Due(Before(s0, t, i), k));
      match m.event
      case Request(w, now) => StepKeepsOthers(lib, s, w, now, m.o, m.after, k);
      case Tick(now) =>
        var removed :| Ticked(s, now, removed, m.after);
        TickKeepsLive(s, now, removed, m.after, k);
    }
  }

  ghost predicate IsGet(w: seq<Str>, k: Str) {
    |w| == 2 && Upper(w[0]) == Ascii("GET") && w[1] == k
  }

  lemma SetStores(lib: Library, s: State, w: seq<Str>, now: nat, s': State, k: Str, v: Str)
    requires Step(lib, s, w, now, Replied(Nil), s') && IsSetOf(w, k, v)
    ensures k in s' && s'[k] == AbsEntry(AStr(v), Some(now + DEFAULT_TTL_MS))
  {
    CommandsDiffer();
    hide Ascii;
    hide Upper;
  }

  lemma GetReads(lib: Library, s: State, w: seq<Str>, now: nat, o: Outcome, s': State, k: Str)
    requires Step(lib, s, w, now, o, s') && IsGet(w, k)
    ensures o == Get(s, k)
  {
    hide Ascii;
    hide Upper;
  }

  /** What an accepted SET stored, GET answers for as long as no other request names the key and no
      timer tick comes after its default lifetime. */
  lemma SetThenGet(lib: Library, t: seq<Moment>, i: nat, j: nat, k: Str, v: Str)
    requires IsRun(lib, map[], t) && AllSendable(t) && i < j < |t|
    requires t[i].event.Request? && IsSetOf(t[i].event.w, k, v) && t[i].o == Replied(Nil)
    requires t[j].event.Request? && IsGet(t[j].event.w, k)
    requires forall m :: i < m < j ==> LeavesAlone(t[m].event, k, t[i].event.now + DEFAULT_TTL_MS)
    ensures t[j].o == Replied(Text(v))
  {
    hide Step;
    hide IsSetOf;
    hide IsGet;
    assert FollowsAt(lib, map[], t, i) && FollowsAt(lib, map[], t, j);
    SetStores(lib, Before(map[], t, i), t[i].event.w, t[i].event.now, t[i].after, k, v);
    EntryStays(lib, map[], t, i + 1, j, k);
    RunKeepsStringsFit(lib, t, j);
    GetReads(lib, Before(map[], t, j), t[j].event.w, t[j].event.now, t[j].o, t[j].after, k);
  }

  /** The keys other than `k` that are due no later than `d`. */
  ghost function DueBy(s: State, k: Str, d: nat): set<Str> {
    set l | l in s && l != k && s[l].deadline.Some? && Due(s, l) <= d
  }

  lemma TickTakes(s: State, now: nat, removed: seq<Str>, s': State, k: Str)
    requires Ticked(s, now, removed, s') && k in s && s[k].deadline.Some? && Due(s, k) < now
    requires |DueBy(s, k, Due(s, k))| < MAX_WORKS
    ensures k !in s'
  {
    if k in s' {
      KeySetSize(removed);
      SubsetSize(KeySet(removed), DueBy(s, k, Due(s, k)));
    }
  }

  /** A tick after the lifetime of an entry forgets it, unless MAX_WORKS others are due no later. */
  lemma LateTickForgets(lib: Library, s0: State, t: seq<Moment>, i: nat, j: nat, k: Str)
    requires IsRun(lib, s0, t) && i <= j < |t| && t[j].event.Tick?
    requires k in Before(s0, t, i) && Before(s0, t, i)[k].deadline.Some?
    requires forall m :: i <= m < j ==> LeavesAlone(t[m].event, k, Due(Before(s0, t, i), k))
    requires Due(Before(s0, t, i), k) < t[j].event.now
    requires |DueBy(Before(s0, t, j), k, Due(Before(s0, t, i), k))| < MAX_WORKS
    ensures k !in t[j].after
  {
    EntryStays(lib, s0, t, i, j, k);
    var s, m := Before(s0, t, j), t[j];
    assert FollowsAt(lib, s0, t, j);
    var removed :| Ticked(s, m.event.now, removed, m.after);
    TickTakes(s, m.event.now, removed, m.after, k);
  }

  // ---------------------------------------------------------------- what DEL and EXPIRE mean for a run

  /** A key that is not there stays away until a request names it. */
  lemma {:induction false} AbsenceStays(lib: Library, s0: State, t: seq<Moment>, i: nat, j: nat, k: Str)
    requires IsRun(lib, s0, t) && i <= j <= |t| && k !in Before(s0, t, i)
    requires forall m :: i <= m < j && t[m].event.Request? ==> !Names(t[m].event.w, k)
    ensures k !in Before(s0, t, j)
  {
    hide Step;
    hide Ticked;
    if i < j {
      AbsenceStays(lib, s0, t, i, j - 1, k);
      var s, m := Before(s0, t, j - 1), t[j - 1];
      assert FollowsAt(lib, s0, t, j - 1);
      match m.event
      case Request(w, now) => StepKeepsOthers(lib, s, w, now, m.o, m.after, k);
      case Tick(now) =>
        var removed :| Ticked(s, now, removed, m.after);
        TickAddsNothing(s, now, removed, m.after, k);
    }
  }

  lemma TickAddsNothing(s: State, now: nat, removed: seq<Str>, s': State, k: Str)
    requires Ticked(s, now, removed, s') && k !in s
    ensures k !in s'
  {
  }

  /** After a DEL of a key, GET does not find it until another request names it. */
  lemma DelThenGet(lib: Library, s0: State, t: seq<Moment>, i: nat, j: nat, k: Str)
    requires IsRun(lib, s0, t) && i < j < |t|
    requires t[i].event.Request? && Asks(t[i].event.w, "DEL", 2) && t[i].event.w[1] == k
    requires t[j].event.Request? && IsGet(t[j].event.w, k)
    requires forall m :: i < m < j && t[m].event.Request? ==> !Names(t[m].event.w, k)
    ensures t[j].o == Replied(Err(ERR_NOT_FOUND, Ascii("get")))
  {
    hide Step;
    hide Ascii;
    hide Upper;
    assert FollowsAt(lib, s0, t, i) && FollowsAt(lib, s0, t, j);
    DelAnswers(lib, Before(s0, t, i), t[i].event.w, t[i].event.now, t[i].o, t[i].after);
    AbsenceStays(lib, s0, t, i + 1, j, k);
    GetAnswers(lib, Before(s0, t, j), t[j].event.w, t[j].event.now, t[j].o, t[j].after);
  }

  /** The request gives an entry that is there a lifetime of `ttl`. */
  ghost predicate Expires(lib: Library, s: State, e: Event, k: Str, ttl: int) {
    e.Request? && Asks(e.w, "EXPIRE", 3) && e.w[1] == k && k in s && lib.stoi(e.w[2]) == Value(ttl)
  }

  lemma ExpireSets(lib: Library, s0: State, t: seq<Moment>, i: nat, k: Str, ttl: int)
    requires IsRun(lib, s0, t) && i < |t| && Expires(lib, Before(s0, t, i), t[i].event, k, ttl)
    ensures t[i].o == Replied(Nil) && k in Before(s0, t, i + 1)
    ensures Before(s0, t, i + 1)[k].val == Before(s0, t, i)[k].val
    ensures Before(s0, t, i + 1)[k].deadline == if ttl < 0 then None else Some(t[i].event.now + ttl)
  {
    hide Step;
    hide Ascii;
    hide Upper;
    assert FollowsAt(lib, s0, t, i);
    ExpireAnswers(lib, Before(s0, t, i), t[i].event.w, t[i].event.now, t[i].o, t[i].after);
  }

  /** The lifetime that EXPIRE sets is the one that TTL tells, until another request names the key or a
      tick comes after it. */
  lemma ExpireThenTtl(lib: Library, s0: State, t: seq<Moment>, i: nat, j: nat, k: Str, ttl: nat)
    requires IsRun(lib, s0, t) && i < j < |t| && Expires(lib, Before(s0, t, i), t[i].event, k, ttl)
    requires t[j].event.Request? && Asks(t[j].event.w, "TTL", 2) && t[j].event.w[1] == k
    requires forall m :: i < m < j ==> LeavesAlone(t[m].event, k, t[i].event.now + ttl)
    ensures t[j].o == Replied(Int(t[i].event.now + ttl))
  {
    hide Step;
    hide Ascii;
    hide Upper;
    ExpireSets(lib, s0, t, i, k, ttl);
    EntryStays(lib, s0, t, i + 1, j, k);
    assert FollowsAt(lib, s0, t, j);
    TtlAnswers(lib, Before(s0, t, j), t[j].event.w, t[j].event.now, t[j].o, t[j].after);
  }

  /** The first tick after that lifetime forgets the key, unless MAX_WORKS others are due no later. */
  lemma ExpireThenTick(lib: Library, s0: State, t: seq<Moment>, i: nat, j: nat, k: Str, ttl: nat)
    requires IsRun(lib, s0, t) && i < j < |t| && Expires(lib, Before(s0, t, i), t[i].event, k, ttl)
    requires t[j].event.Tick? && t[i].event.now + ttl < t[j].event.now
    requires forall m :: i < m < j ==> LeavesAlone(t[m].event, k, t[i].event.now + ttl)
    requires |DueBy(Before(s0, t, j), k, t[i].event.now + ttl)| < MAX_WORKS
    ensures k !in t[j].after
  {
    hide Step;
    hide Asks;
    hide DueBy;
    hide IsRun;
    ExpireSets(lib, s0, t, i, k, ttl);
    LateTickForgets(lib, s0, t, i + 1, j, k);
  }

  /** An entry without a deadline outlives every tick. */
  lemma {:induction false} UntimedStays(lib: Library, s0: State, t: seq<Moment>, i: nat, j: nat, k: Str)
    requires IsRun(lib, s0, t) && i <= j <= |t|
    requires k in Before(s0, t, i) && Before(s0, t, i)[k].deadline.None?
    requires forall m :: i <= m < j && t[m].event.Request? ==> !Names(t[m].event.w, k)
    ensures SameAt(Before(s0, t, i), Before(s0, t, j), k)
  {
    hide Step;
    hide Ticked;
    if i < j {
      UntimedStays(lib, s0, t, i, j - 1, k);
      var s, m := Before(s0, t, j - 1), t[j - 1];
      assert FollowsAt(lib, s0, t, j - 1);
      match m.event
      case Request(w, now) => StepKeepsOthers(lib, s, w, now, m.o, m.after, k);
      case Tick(now) =>
        var removed :| Ticked(s, now, removed, m.after);
        TickKeepsLive(s, now, removed, m.after, k);
    }
  }

  /** A negative lifetime keeps the entry for good, whatever ticks come, until another request names it. */
  lemma NegativeKeeps(lib: Library, s0: State, t: seq<Moment>, i: nat, j: nat, k: Str, ttl: int)
    requires IsRun(lib, s0, t) && i < j <= |t| && Expires(lib, Before(s0, t, i), t[i].event, k, ttl) && ttl < 0
    requires forall m :: i < m < j && t[m].event.Request? ==> !Names(t[m].event.w, k)
    ensures k in Before(s0, t, j) && Before(s0, t, j)[k] == AbsEntry(Before(s0, t, i)[k].val, None)
  {
    hide Asks;
    hide IsRun;
    ExpireSets(lib, s0, t, i, k, ttl);
    UntimedStays(lib, s0, t, i + 1, j, k);
  }

  ghost predicate Late(s: State, k: Str, now: nat) {
    k in s && s[k].deadline.Some? && s[k].deadline.value < now
  }

  ghost function AllLate(s: State, now: nat): set<Str> {
    set k | k in s && Late(s, k, now)
  }

  /** A tick forgets late entries and nothing else: all of them if they are 2000 at most, and otherwise
      2000 of them that were due no later than those it leaves. */
  lemma TickForgets(lib: Library, s: State, m: Moment)
    requires Follows(lib, s, m) && m.event.Tick?
    ensures forall k :: k in m.after ==> k in s && m.after[k] == s[k]
    ensures s.Keys - m.after.Keys <= AllLate(s, m.event.now)
    ensures |AllLate(s, m.event.now)| <= 2000 ==> s.Keys - m.after.Keys == AllLate(s, m.event.now)
    ensures |AllLate(s, m.event.now)| > 2000 ==> |s.Keys - m.after.Keys| == 2000
    ensures forall k, l :: k in AllLate(s, m.event.now) && k !in m.after && l in AllLate(m.after, m.event.now) ==>
              s[k].deadline.value <= s[l].deadline.value
  {
    hide *;
    var removed := TickOf(lib, s, m);
    LateOnesGo(s, m.event.now, removed, m.after);
    TickLeaves(s, m.event.now, removed, m.after);
  }

  lemma TickOf(lib: Library, s: State, m: Moment) returns (removed: seq<Str>)
    requires Follows(lib, s, m) && m.event.Tick?
    ensures Ticked(s, m.event.now, removed, m.after)
  {
    hide Step;
    hide Ticked;
    removed :| Ticked(s, m.event.now, removed, m.after);
  }

  lemma LateOnesGo(s: State, now: nat, removed: seq<Str>, s': State)
    requires Ticked(s, now, removed, s')
    ensures s.Keys - s'.Keys <= AllLate(s, now)
    ensures |AllLate(s, now)| <= 2000 ==> s.Keys - s'.Keys == AllLate(s, now)
    ensures |AllLate(s, now)| > 2000 ==> |s.Keys - s'.Keys| == 2000
  {
    hide *;
    LateIsExpired(s, now);
    TickLeaves(s, now, removed, s');
    TickCount(s, now, removed, s');
    RemovedOnce(s, now, removed, s');
    if |AllLate(s, now)| <= 2000 {
      SubsetIsAll(KeySet(removed), AllLate(s, now));
    }
  }

  lemma LateIsExpired(s: State, now: nat)
    ensures AllLate(s, now) == Expired(s, now)
  {
  }

  lemma RemovedOnce(s: State, now: nat, removed: seq<Str>, s': State)
    requires Ticked(s, now, removed, s')
    ensures |KeySet(removed)| == |removed| && MAX_WORKS == 2000
  {
    KeySetSize(removed);
  }

  lemma TickLeaves(s: State, now: nat, removed: seq<Str>, s': State)
    requires Ticked(s, now, removed, s')
    ensures (forall k :: k in s' ==> k in s && s'[k] == s[k]) && s.Keys - s'.Keys == KeySet(removed)
    ensures forall k, l :: k in AllLate(s, now) && k !in s' && l in AllLate(s', now) ==>
              s[k].deadline.value <= s[l].deadline.value
  {
    assert KeySet(removed) <= s.Keys;
    forall k, l | k in AllLate(s, now) && k !in s' && l in AllLate(s', now)
      ensures s[k].deadline.value <= s[l].deadline.value
    {
      assert k in KeySet(removed);
      var i :| 0 <= i < |removed| && removed[i] == k;
      assert Due(s, removed[i]) <= Due(s', l);
    }
  }

  lemma SubsetIsAll<T>(a: set<T>, b: set<T>)
    requires a <= b && |a| == |b|
    ensures a == b
  {
    assert b == a + (b - a);
  }
}
