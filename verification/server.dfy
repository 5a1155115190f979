/** The request handlers of server/MRD_server.cpp: each acts on the keyspace as its command says and
    writes its reply, byte for byte, behind what is queued already. */
module Servers {
  import opened Bytes
  import opened Shape
  import opened Avl
  import opened Walk
  import opened Order
  import opened Codec
  import opened Buffers
  import opened Spec
  import opened Commands
  import opened Entries
  import opened ZSets
  import opened Queries
  import opened Keyspaces

  /** Writes a reply that is not an array. */
  method OutReply(out: Buffer, r: Reply) returns (n: nat)
    requires out.Valid() && !r.Arr?
    modifies out, out.mem
    ensures out.Valid() && (out.mem == old(out.mem) || fresh(out.mem))
    ensures out.Contents() == old(out.Contents()) + Encode(r) && n == |Encode(r)|
  {
    hide *;
    match r
    case Nil => n := OutNil(out);
    case Err(code, msg) => n := OutErr(out, code, msg);
    case Text(s) => n := OutStr(out, s);
    case Int(v) => n := OutInt(out, v);
    case Dbl(bits) => n := OutDbl(out, bits);
  }

  /** What a handler that has come to `o` did to the queue, and what it returned. */
  ghost predicate Wrote(before: seq<Byte>, after: seq<Byte>, n: Option<nat>, o: Outcome) {
    match o
    case Replied(r) => after == before + Encode(r) && n == Some(|Encode(r)|)
    case Crashed => after == before && n == None
  }

  /** In a sorted sequence an element stands at its own lower bound. */
  lemma {:induction false} OwnLowerBound(s: seq<Item>, i: nat)
    requires Sorted(s) && i < |s|
    ensures LowerBound(s, s[i]) == i
  {
    hide ZLess;
    ZLessIrreflexive(s[i]);
    if i > 0 {
      assert ZLess(s[0], s[i]);
      OwnLowerBound(s[1..], i - 1);
    }
  }

  /** What ZRANK sends is a position of the element, and not beyond its own. */
  lemma RankIsAllowed(z: ZSet, name: Str, rank: int, c: Ctx<ZNode>, t: Tree<ZNode>)
    requires z.TreeOk() && name in z.contents && t.Node? && Plug(c, t) == z.tree
    requires ItemOf(t.node) == Item(z.contents[name], name)
    requires rank == Index(c, t) + 1 - |Pre(RunCtx(c))|
    ensures ZRankMay(z.contents, name, rank)
  {
    hide ZLess;
    RankMeaning(c, t, rank);
    AtIndex(c, t);
    Canonical(z);
    RankingOfRanks(z.contents);
    OwnLowerBound(RankingOf(z.contents), Index(c, t));
  }

  lemma RankAllowed(z: ZSet, name: Str, rank: int, c: Ctx<ZNode>, t: Tree<ZNode>)
    requires z.TreeOk()
    requires if name in z.contents
             then && t.Node? && Plug(c, t) == z.tree && ItemOf(t.node) == Item(z.contents[name], name)
                  && rank == Index(c, t) + 1 - |Pre(RunCtx(c))|
             else rank == 0
    ensures ZRankMay(z.contents, name, rank)
  {
    hide ZSet.TreeOk;
    if name in z.contents {
      RankIsAllowed(z, name, rank, c, t);
    }
  }

  /** The tree of four nodes where the third is found to the left of the fourth. */
  ghost function Zigzag<N>(a: N, m: N, b: N, z: N): Tree<N> {
    Node(Node(Leaf, a, Leaf), m, Node(Node(Leaf, b, Leaf), z, Leaf))
  }

  /** There is only one way down to the third node. */
  lemma OnlyPath<N>(c: Ctx<N>, t: Tree<N>, a: N, m: N, b: N, z: N)
    requires t.Node? && t.node == b && b !in {a, m, z} && Plug(c, t) == Zigzag(a, m, b, z)
    ensures c == InLeft(InRight(Top, Node(Leaf, a, Leaf), m), z, Leaf) && t == Node(Leaf, b, Leaf)
  {
    var whole, leaf := Zigzag(a, m, b, z), Node(Leaf, b, Leaf);
    assert Height(leaf) == 1 && Height(Node(leaf, z, Leaf)) == 2 && Height(whole) == 3;
    PathIsShort(c, t);
    assert !c.Top?;
    var one := OneUp(c, t);
    assert Plug(c.up, one) == whole;
    assert !c.up.Top?;
    var two := OneUp(c.up, one);
    assert Plug(c.up.up, two) == whole;
    ThreeDeep(c);
    assert c.up.up.Top? && two == whole;
  }

  lemma ThreeDeep<N>(c: Ctx<N>)
    requires !c.Top? && !c.up.Top?
    ensures Depth(c) >= 2 && (!c.up.up.Top? ==> Depth(c) >= 3)
  {
    assert Depth(c) == 1 + Depth(c.up);
  }

  lemma RankThere<N>(a: N, m: N, b: N, z: N)
    ensures var c, t := InLeft(InRight(Top, Node(Leaf, a, Leaf), m), z, Leaf), Node(Leaf, b, Leaf);
            && Index(c, t) + 1 - |Pre(RunCtx(c))| == 1 && Index(c, t) == 2
            && InOrder(Zigzag(a, m, b, z)) == [a, m, b, z]
  {
    RankIsNotGlobal(a, m, b, z);
    var c, t := InLeft(InRight(Top, Node(Leaf, a, Leaf), m), z, Leaf), Node(Leaf, b, Leaf);
    assert Plug(c, t) == Plug(c.up, OneUp(c, t)) == Zigzag(a, m, b, z);
  }

  /** Line 605. */
  method RankIn(z: ZSet, name: Str) returns (rank: int, ghost c: Ctx<ZNode>, ghost t: Tree<ZNode>)
    requires z.Valid()
    ensures ZRankMay(z.contents, name, rank)
    ensures name in z.contents ==>
              && t.Node? && t.node.name == name && Plug(c, t) == z.tree
              && rank == Index(c, t) + 1 - |Pre(RunCtx(c))|
  {
    hide ZSet.Valid;
    hide ZSet.TreeOk;
    hide ZRankMay;
    hide Plug;
    hide Index;
    hide Pre;
    hide RunCtx;
    z.Sound();
    Allocated(z.tree);
    rank, c, t := z.Rank(name);
    z.Sound();
    RankAllowed(z, name, rank, c, t);
  }

  /** The words from the second on, each with a blank behind it (lines 660-664). */
  method EchoWords(cmd: seq<Str>) returns (output: Str)
    requires |cmd| > 0
    ensures output == EchoText(cmd[1..])
  {
    output := [];
    for i := 1 to |cmd|
      invariant output + EchoText(cmd[i..]) == EchoText(cmd[1..])
    {
      assert cmd[i..][1..] == cmd[i + 1..];
      output := output + cmd[i];
      output := output + [32];
    }
    assert EchoText(cmd[|cmd|..]) == [];
  }

  class Server {
    const ks: Keyspace
    const lib: Library
    var is_running: bool

    constructor (lib: Library)
      ensures Valid() && fresh(ks) && fresh(ks.Repr) && ks.State() == map[] && is_running
    {
      var k := new Keyspace();
      ks := k;
      this.lib := lib;
      is_running := true;
    }

    ghost predicate Valid()
      reads this, ks, ks.Repr
    {
      ks.Valid() && this !in ks.Repr
    }

    /** The buffer belongs to a connection, not to the keyspace. */
    ghost predicate Apart(out: Buffer)
      reads this, ks, out
    {
      out.Valid() && out !in ks.Repr && out.mem !in ks.Repr
    }

    method DoGet(cmd: seq<Str>, out: Buffer) returns (n: Option<nat>)
      requires Valid() && Apart(out) && |cmd| == 2
      modifies out, out.mem
      ensures Valid() && ks.State() == old(ks.State())
      ensures Apart(out) && (out.mem == old(out.mem) || fresh(out.mem))
      ensures Wrote(old(out.Contents()), out.Contents(), n, Get(ks.State(), cmd[1]))
    {
      hide Keyspace.Valid;
      hide Keyspace.State;
      hide Encode;
      hide Ascii;
      hide DeadlineOf;
      hide Abstract;
      hide ZSet.Valid;
      ks.Facts(cmd[1]);
      var entry := ks.DataLookup(cmd[1]);
      var r;
      if entry == null {
        r := Err(ERR_NOT_FOUND, Ascii("get"));
      } else {
        match entry.val
        case SetValue(_) => r := Err(ERR_BAD_TYPE, Ascii("get: expected KV-pair"));
        case StrValue(v) =>
          if |v| > MAX_MSG {
            return None;
          }
          r := Text(v);
      }
      assert Replied(r) == Get(ks.State(), cmd[1]);
      var m := OutReply(out, r);
      n := Some(m);
    }

    method DoSet(cmd: seq<Str>, out: Buffer, now: nat) returns (n: nat, ghost reply: Reply)
      requires Valid() && Apart(out) && |cmd| == 3
      modifies ks.Repr, out, out.mem
      ensures Valid() && fresh(ks.Repr - old(ks.Repr))
      ensures (ks.State(), reply) == SetCmd(old(ks.State()), cmd[1], cmd[2], now)
      ensures Apart(out) && (out.mem == old(out.mem) || fresh(out.mem))
      ensures Wrote(old(out.Contents()), out.Contents(), Some(n), Replied(reply))
    {
      hide Keyspace.Valid;
      hide Keyspace.State;
      hide Encode;
      hide Ascii;
      var r := ks.Put(cmd[1], cmd[2], now);
      reply := r;
      n := OutReply(out, r);
    }

    method DoDel(cmd: seq<Str>, out: Buffer, now: nat) returns (n: nat, ghost reply: Reply)
      requires Valid() && Apart(out) && |cmd| == 2
      modifies ks.Repr, out, out.mem
      ensures Valid() && fresh(ks.Repr - old(ks.Repr))
      ensures (ks.State(), reply) == DelCmd(old(ks.State()), cmd[1])
      ensures Apart(out) && (out.mem == old(out.mem) || fresh(out.mem))
      ensures Wrote(old(out.Contents()), out.Contents(), Some(n), Replied(reply))
    {
      hide Keyspace.Valid;
      hide Keyspace.State;
      hide Encode;
      hide Ascii;
      var r := ks.Remove(cmd[1], now);
      reply := r;
      n := OutReply(out, r);
    }

    method DoZAdd(cmd: seq<Str>, out: Buffer, now: nat) returns (n: nat, ghost reply: Reply)
      requires Valid() && Apart(out) && |cmd| == 4
      modifies ks.Repr, out, out.mem
      ensures Valid() && fresh(ks.Repr - old(ks.Repr))
      ensures (ks.State(), reply) == ZAdd(old(ks.State()), cmd[1], lib.stod(cmd[2]), cmd[3], now)
      ensures Apart(out) && (out.mem == old(out.mem) || fresh(out.mem))
      ensures Wrote(old(out.Contents()), out.Contents(), Some(n), Replied(reply))
    {
      hide Keyspace.Valid;
      hide Keyspace.State;
      hide Encode;
      hide Ascii;
      var r := ks.ZAddTo(cmd[1], lib.stod(cmd[2]), cmd[3], now);
      reply := r;
      n := OutReply(out, r);
    }

    method DoZRem(cmd: seq<Str>, out: Buffer) returns (n: nat, ghost reply: Reply)
      requires Valid() && Apart(out) && |cmd| == 3
      modifies ks.Repr, out, out.mem
      ensures Valid() && fresh(ks.Repr - old(ks.Repr))
      ensures (ks.State(), reply) == ZRem(old(ks.State()), cmd[1], cmd[2])
      ensures Apart(out) && (out.mem == old(out.mem) || fresh(out.mem))
      ensures Wrote(old(out.Contents()), out.Contents(), Some(n), Replied(reply))
    {
      hide Keyspace.Valid;
      hide Keyspace.State;
      hide Encode;
      hide Ascii;
      var r := ks.ZRemFrom(cmd[1], cmd[2]);
      reply := r;
      n := OutReply(out, r);
    }

    method DoExpire(cmd: seq<Str>, out: Buffer, now: nat) returns (n: nat, ghost reply: Reply)
      requires Valid() && Apart(out) && |cmd| == 3
      modifies ks.Repr, out, out.mem
      ensures Valid() && fresh(ks.Repr - old(ks.Repr))
      ensures (ks.State(), reply) == Expire(old(ks.State()), cmd[1], lib.stoi(cmd[2]), now)
      ensures Apart(out) && (out.mem == old(out.mem) || fresh(out.mem))
      ensures Wrote(old(out.Contents()), out.Contents(), Some(n), Replied(reply))
    {
      hide Keyspace.Valid;
      hide Keyspace.State;
      hide Encode;
      hide Ascii;
      var r := ks.ExpireKey(cmd[1], lib.stoi(cmd[2]), now);
      reply := r;
      n := OutReply(out, r);
    }

    method DoZQueryGe(cmd: seq<Str>, out: Buffer) returns (n: nat)
      requires Valid() && Apart(out) && |cmd| == 6
      modifies out, out.mem
      ensures Valid() && ks.State() == old(ks.State())
      ensures Apart(out) && (out.mem == old(out.mem) || fresh(out.mem))
      ensures Wrote(old(out.Contents()), out.Contents(), Some(n), Replied(ZQuery(lib, ks.State(), cmd, true)))
    {
      hide Keyspace.Valid;
      hide Keyspace.State;
      hide ZSet.Valid;
      hide ZSet.TreeOk;
      hide Encode;
      hide Ascii;
      hide QueryGe;
      hide QueryLe;
      hide Pairs;
      var e, missing := ks.ExpectSet(cmd[1], Ascii("zqueryge"));
      if e == null {
        n := OutReply(out, missing);
        return;
      }
      var score, offset, limit := lib.stod(cmd[2]), lib.stol(cmd[4]), lib.stol(cmd[5]);
      if !score.Value? {
        n := OutReply(out, BadNumber(score));
      } else if !offset.Value? {
        n := OutReply(out, BadNumber(offset));
      } else if !limit.Value? {
        n := OutReply(out, BadNumber(limit));
      } else {
        e.val.z.Sound();
        n := Queries.DoZQueryGe(e.val.z, lib, score.v, cmd[3], offset.v, limit.v, out);
      }
    }

    method DoZQueryLe(cmd: seq<Str>, out: Buffer) returns (n: nat)
      requires Valid() && Apart(out) && |cmd| == 6
      modifies out, out.mem
      ensures Valid() && ks.State() == old(ks.State())
      ensures Apart(out) && (out.mem == old(out.mem) || fresh(out.mem))
      ensures Wrote(old(out.Contents()), out.Contents(), Some(n), Replied(ZQuery(lib, ks.State(), cmd, false)))
    {
      hide Keyspace.Valid;
      hide Keyspace.State;
      hide ZSet.Valid;
      hide ZSet.TreeOk;
      hide Encode;
      hide Ascii;
      hide QueryGe;
      hide QueryLe;
      hide Pairs;
      var e, missing := ks.ExpectSet(cmd[1], Ascii("zqueryge"));
      if e == null {
        n := OutReply(out, missing);
        return;
      }
      var score, offset, limit := lib.stod(cmd[2]), lib.stol(cmd[4]), lib.stol(cmd[5]);
      if !score.Value? {
        n := OutReply(out, BadNumber(score));
      } else if !offset.Value? {
        n := OutReply(out, BadNumber(offset));
      } else if !limit.Value? {
        n := OutReply(out, BadNumber(limit));
      } else {
        e.val.z.Sound();
        n := Queries.DoZQueryLe(e.val.z, lib, score.v, cmd[3], offset.v, limit.v, out);
      }
    }

    /** The rank is what the climb computes from the element's place in the tree of the set. */
    method DoZRank(cmd: seq<Str>, out: Buffer, now: nat)
      returns (n: nat, ghost reply: Reply, ghost c: Ctx<ZNode>, ghost t: Tree<ZNode>)
      requires Valid() && Apart(out) && |cmd| == 3
      modifies ks.Repr, out, out.mem
      ensures Valid() && fresh(ks.Repr - old(ks.Repr))
      ensures ZRankStep(old(ks.State()), cmd[1], cmd[2], now, Replied(reply), ks.State())
      ensures IsSet(old(ks.State()), cmd[1]) && cmd[2] in old(ks.State())[cmd[1]].val.m ==>
                && cmd[1] in old(ks.dir) && old(ks.dir[cmd[1]].val).SetValue?
                && t.Node? && t.node.name == cmd[2] && Plug(c, t) == old(ks.dir[cmd[1]].val.z.tree)
                && reply == Int(Index(c, t) + 1 - |Pre(RunCtx(c))|)
      ensures Apart(out) && (out.mem == old(out.mem) || fresh(out.mem))
      ensures Wrote(old(out.Contents()), out.Contents(), Some(n), Replied(reply))
    {
      hide Keyspace.Valid;
      hide Keyspace.State;
      hide ZSet.Valid;
      hide ZSet.TreeOk;
      hide Encode;
      hide Ascii;
      hide ZRankMay;
      hide Plug;
      hide Index;
      hide Pre;
      hide RunCtx;
      hide Abstract;
      hide DeadlineOf;
      c, t := Top, Leaf;
      var e, missing := ks.ExpectSet(cmd[1], Ascii("zqueryge"));
      if e == null {
        reply := missing;
        n := OutReply(out, missing);
        return;
      }
      var rank;
      rank, c, t := RankIn(e.val.z, cmd[2]);
      ks.Facts(cmd[1]);
      ks.SetTtl(cmd[1], e, DEFAULT_TTL_MS, now);
      reply := Int(rank);
      n := OutInt(out, rank);
    }

    /** A command may wait for a number that is none: the exception ends the process. */
    method DoZCount(cmd: seq<Str>, out: Buffer) returns (n: Option<nat>)
      requires Valid() && Apart(out) && |cmd| == 4
      modifies out, out.mem
      ensures Valid() && ks.State() == old(ks.State())
      ensures Apart(out) && (out.mem == old(out.mem) || fresh(out.mem))
      ensures Wrote(old(out.Contents()), out.Contents(), n, ZCount(lib, ks.State(), cmd))
    {
      hide Keyspace.Valid;
      hide Keyspace.State;
      hide ZSet.Valid;
      hide ZSet.TreeOk;
      hide Encode;
      hide Ascii;
      hide Between;
      var e, missing := ks.ExpectSet(cmd[1], Ascii("zqueryge"));
      var r := missing;
      if e != null {
        var lo, hi := lib.stod(cmd[2]), lib.stod(cmd[3]);
        if !lo.Value? || !hi.Value? {
          return None;
        }
        e.val.z.Sound();
        var count := CountBetween(e.val.z, lo.v, hi.v);
        r := Int(count);
      }
      assert Replied(r) == ZCount(lib, ks.State(), cmd);
      var m := OutReply(out, r);
      n := Some(m);
    }

    /** Without a deadline the index lies outside the heap. */
    method DoTtl(cmd: seq<Str>, out: Buffer) returns (n: Option<nat>)
      requires Valid() && Apart(out) && |cmd| == 2
      modifies out, out.mem
      ensures Valid() && ks.State() == old(ks.State())
      ensures Apart(out) && (out.mem == old(out.mem) || fresh(out.mem))
      ensures Wrote(old(out.Contents()), out.Contents(), n, Ttl(ks.State(), cmd[1]))
    {
      hide Keyspace.Valid;
      hide Keyspace.State;
      hide Encode;
      hide Ascii;
      hide ZSet.Valid;
      hide Abstract;
      hide ValueOf;
      hide DeadlineOf;
      ks.Facts(cmd[1]);
      var e := ks.DataLookup(cmd[1]);
      var r;
      if e == null {
        r := Err(ERR_NOT_FOUND, Ascii("ttl"));
      } else {
        ks.SlotOf(cmd[1]);
        if !(0 <= e.heap_idx < |ks.ttl_heap.items|) {
          return None;
        }
        r := Int(ks.ttl_heap.items[e.heap_idx].val);
      }
      assert Replied(r) == Ttl(ks.State(), cmd[1]);
      var m := OutReply(out, r);
      n := Some(m);
    }

    method DoEcho(cmd: seq<Str>, out: Buffer) returns (n: nat)
      requires out.Valid() && |cmd| > 0
      modifies out, out.mem
      ensures out.Valid() && (out.mem == old(out.mem) || fresh(out.mem))
      ensures Wrote(old(out.Contents()), out.Contents(), Some(n), Replied(Text(EchoText(cmd[1..]))))
    {
      hide Encode;
      var output := EchoWords(cmd);
      n := OutStr(out, output);
    }

    // -------------------------------------------------------------- dispatch

    /** Runs a request; without a result the process is lost. */
    method DoRequest(cmd: seq<Str>, out: Buffer, now: nat) returns (n: Option<nat>, ghost o: Outcome)
      requires Valid() && Apart(out)
      modifies ks.Repr, out, out.mem, this`is_running
      ensures Valid() && fresh(ks.Repr - old(ks.Repr))
      ensures Step(lib, old(ks.State()), cmd, now, o, ks.State())
      ensures Apart(out) && (out.mem == old(out.mem) || fresh(out.mem))
      ensures Wrote(old(out.Contents()), out.Contents(), n, o)
      ensures is_running == (old(is_running) && !IsSdie(cmd))
    {
      hide Keyspace.Valid;
      hide Keyspace.State;
      hide Encode;
      hide Ascii;
      hide Upper;
      hide Get;
      hide ZCount;
      hide Ttl;
      hide ZRankStep;
      hide ZQuery;
      hide SetCmd;
      hide DelCmd;
      hide ZAdd;
      hide ZRem;
      hide Expire;
      hide EchoText;
      if |cmd| == 0 {
        return None, Crashed;
      }
      SdieIsAlone();
      var name := Upper(cmd[0]);
      var m: nat;
      ghost var reply;
      if |cmd| == 2 && name == Ascii("GET") {
        n := DoGet(cmd, out);
        o := Get(ks.State(), cmd[1]);
        return;
      } else if |cmd| == 3 && name == Ascii("SET") {
        m, reply := DoSet(cmd, out, now);
      } else if |cmd| == 2 && name == Ascii("DEL") {
        m, reply := DoDel(cmd, out, now);
      } else if |cmd| == 4 && name == Ascii("ZADD") {
        m, reply := DoZAdd(cmd, out, now);
      } else if |cmd| == 3 && name == Ascii("ZREM") {
        m, reply := DoZRem(cmd, out);
      } else if |cmd| == 6 && name == Ascii("ZQUERYGE") {
        m := DoZQueryGe(cmd, out);
        reply := ZQuery(lib, ks.State(), cmd, true);
      } else if |cmd| == 6 && name == Ascii("ZQUERYLE") {
        m := DoZQueryLe(cmd, out);
        reply := ZQuery(lib, ks.State(), cmd, false);
      } else if |cmd| == 4 && name == Ascii("ZCOUNT") {
        n := DoZCount(cmd, out);
        o := ZCount(lib, ks.State(), cmd);
        return;
      } else if |cmd| == 3 && name == Ascii("ZRANK") {
        ghost var c, t;
        m, reply, c, t := DoZRank(cmd, out, now);
      } else if |cmd| == 3 && name == Ascii("EXPIRE") {
        m, reply := DoExpire(cmd, out, now);
      } else if |cmd| == 2 && name == Ascii("TTL") {
        n := DoTtl(cmd, out);
        o := Ttl(ks.State(), cmd[1]);
        return;
      } else if name == Ascii("ECHO") {
        m := DoEcho(cmd, out);
        reply := Text(EchoText(cmd[1..]));
      } else if name == Ascii("SDIE") {
        is_running := false;
        m := OutStr(out, Ascii("killing server"));
        reply := Text(Ascii("killing server"));
      } else {
        m := OutErr(out, ERR_NOT_FOUND, Ascii("command not found"));
        reply := Err(ERR_NOT_FOUND, Ascii("command not found"));
      }
      return Some(m), Replied(reply);
    }
  }

  // ---------------------------------------------------------------- a rank that is wrong

  lemma FirstGrowth(t: Tree<ZNode>, m: ZNode)
    requires GrownBy(Leaf, t, m)
    ensures t == Node(Leaf, m, Leaf) && m in Nodes(t)
  {
  }

  lemma SecondGrowth(t: Tree<ZNode>, m: ZNode, a: ZNode)
    requires GrownBy(Node(Leaf, m, Leaf), t, a) && a.score < m.score
    ensures t == Node(Node(Leaf, a, Leaf), m, Leaf) && m in Nodes(t)
  {
    var leaf := Node(Leaf, a, Leaf);
    assert Place(Top, Node(Leaf, m, Leaf), a) == InLeft(Top, m, Leaf);
    assert Plug(InLeft(Top, m, Leaf), leaf) == Node(leaf, m, Leaf);
    assert Height(leaf) == 1;
    FixUpRests(InLeft(Top, m, Leaf), leaf);
  }

  lemma ThirdGrowth(t: Tree<ZNode>, m: ZNode, a: ZNode, z: ZNode)
    requires GrownBy(Node(Node(Leaf, a, Leaf), m, Leaf), t, z) && m.score < z.score
    ensures t == Node(Node(Leaf, a, Leaf), m, Node(Leaf, z, Leaf)) && m in Nodes(t) && z in Nodes(t)
  {
    var left, leaf := Node(Leaf, a, Leaf), Node(Leaf, z, Leaf);
    assert Place(Top, Node(left, m, Leaf), z) == InRight(Top, left, m);
    assert Plug(InRight(Top, left, m), leaf) == Node(left, m, leaf);
    assert Height(leaf) == Height(left) == 1 && Balanced(left) && Balanced(leaf);
    FixUpRests(InRight(Top, left, m), leaf);
  }

  lemma FourthGrowth(t: Tree<ZNode>, m: ZNode, a: ZNode, z: ZNode, b: ZNode)
    requires GrownBy(Node(Node(Leaf, a, Leaf), m, Node(Leaf, z, Leaf)), t, b) && m.score < b.score < z.score
    ensures t == Zigzag(a, m, b, z)
  {
    var left, right, leaf := Node(Leaf, a, Leaf), Node(Leaf, z, Leaf), Node(Leaf, b, Leaf);
    var c := InLeft(InRight(Top, left, m), z, Leaf);
    assert Place(InRight(Top, left, m), right, b) == c;
    assert Place(Top, Node(left, m, right), b) == c;
    assert Plug(c, leaf) == Plug(InRight(Top, left, m), Node(leaf, z, Leaf)) == Zigzag(a, m, b, z);
    assert Height(leaf) == Height(left) == 1 && Balanced(left) && Balanced(leaf);
    assert Height(Node(leaf, z, Leaf)) == 2 && Balanced(Node(leaf, z, Leaf));
    FixUpRests(c, leaf);
  }

  lemma {:induction false} PlacePlugs(c: Ctx<ZNode>, t: Tree<ZNode>, n: ZNode)
    ensures Plug(Place(c, t, n), Leaf) == Plug(c, t)
    decreases t
  {
    if t.Node? {
      PlacePlugs(InLeft(c, t.node, t.right), t.left, n);
      PlacePlugs(InRight(c, t.left, t.node), t.right, n);
    }
  }

  lemma GrownKeeps(before: Tree<ZNode>, after: Tree<ZNode>, n: ZNode)
    requires GrownBy(before, after, n)
    ensures Nodes(before) <= Nodes(after) && n in Nodes(after)
  {
    var c := Place(Top, before, n);
    Allocated(before);
    PlacePlugs(Top, before, n);
    PlugInOrder(c, Leaf);
    FixUpInOrder(c, Node(Leaf, n, Leaf));
    forall x | x in Nodes(before) || x == n ensures x in Nodes(after) {
      InOrderHasNodes(before, x);
      InOrderHasNodes(after, x);
    }
  }

  /** What an insertion adds to a sorted set. */
  method Grow(z: ZSet, name: Str, score: real) returns (ghost n: ZNode)
    requires z.Valid() && name !in z.contents
    modifies z.Repr
    ensures z.Valid() && fresh(z.Repr - old(z.Repr)) && z.contents == old(z.contents)[name := score]
    ensures n.name == name && GrownBy(old(z.tree), z.tree, n)
    ensures Nodes(old(z.tree)) + {n} <= Nodes(z.tree)
    ensures forall x :: x in Nodes(z.tree) ==> x.name in z.contents && z.contents[x.name] == x.score
  {
    hide ZSet.Valid;
    hide GrownBy;
    hide Nodes;
    hide Ranks;
    var added := z.Insert(name, score);
    n :| n in Nodes(z.tree) && n.name == name && GrownBy(old(z.tree), z.tree, n);
    z.Sound();
    GrownKeeps(old(z.tree), z.tree, n);
    forall x | x in Nodes(z.tree) ensures x.name in z.contents && z.contents[x.name] == x.score {
      NodeRanked(z.tree, x, z.contents);
    }
  }

  /** Four insertions that need no rotation. */
  method FourElements() returns (z: ZSet, ghost a: ZNode, ghost m: ZNode, ghost b: ZNode, ghost last: ZNode)
    ensures fresh(z.Repr) && z.Valid()
    ensures z.contents == map[[1] := 1.0, [2] := 2.0, [3] := 3.0, [4] := 4.0]
    ensures z.tree == Zigzag(a, m, b, last)
    ensures a.name == [1] && m.name == [2] && b.name == [3] && last.name == [4] && b.score == 3.0
  {
    hide *;
    z := new ZSet();
    m := Grow(z, [2], 2.0);
    FirstGrowth(z.tree, m);
    a := Grow(z, [1], 1.0);
    SecondGrowth(z.tree, m, a);
    last := Grow(z, [4], 4.0);
    ThirdGrowth(z.tree, m, a, last);
    b := Grow(z, [3], 3.0);
    FourthGrowth(z.tree, m, a, last, b);
  }

  /** After them the third element of the set is ranked first. */
  method RankGoesWrong() returns (z: ZSet, rank: int)
    ensures fresh(z.Repr) && z.Valid()
    ensures z.contents == map[[1] := 1.0, [2] := 2.0, [3] := 3.0, [4] := 4.0]
    ensures rank == 1 && LowerBound(RankingOf(z.contents), Item(3.0, [3])) + 1 == 3
  {
    hide *;
    ghost var a, m, b, last;
    z, a, m, b, last := FourElements();
    z.Sound();
    RankThere(a, m, b, last);
    ghost var c, t;
    rank, c, t := RankIn(z, [3]);
    z.Sound();
    AloneWith(c, t, a, m, b, last);
    OnlyPath(c, t, a, m, b, last);
    ThirdPlace(z, a, m, b, last);
  }

  /** The names of the four tell which one stands at a place. */
  lemma AloneWith(c: Ctx<ZNode>, t: Tree<ZNode>, a: ZNode, m: ZNode, b: ZNode, last: ZNode)
    requires t.Node? && Plug(c, t) == Zigzag(a, m, b, last) && t.node.name == b.name
    requires b.name !in {a.name, m.name, last.name}
    ensures t.node == b && b !in {a, m, last}
  {
    AtIndex(c, t);
    RankThere(a, m, b, last);
    assert t.node in [a, m, b, last];
  }

  lemma ThirdPlace(z: ZSet, a: ZNode, m: ZNode, b: ZNode, last: ZNode)
    requires z.TreeOk() && InOrder(z.tree) == [a, m, b, last]
    ensures LowerBound(RankingOf(z.contents), Item(b.score, b.name)) == 2
  {
    hide ZSet.TreeOk;
    Canonical(z);
    RankingOfRanks(z.contents);
    OwnLowerBound(RankingOf(z.contents), 2);
  }
}
