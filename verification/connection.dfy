/** A connection and the requests on it (server/MRD_server.cpp:199-290). */
module Connections {
  import opened Bytes
  import opened Codec
  import opened Buffers
  import opened Spec
  import opened Commands
  import opened Keyspaces
  import opened Servers
  import opened Framing

  // ---------------------------------------------------------------- the length of a response

  method ResponseBegin(out: Buffer)
    requires out.Valid()
    modifies out, out.mem
    ensures out.Valid() && (out.mem == old(out.mem) || fresh(out.mem))
    ensures out.Contents() == old(out.Contents()) + LE(0, 4)
  {
    out.Append(LE(0, 4));
  }

  lemma HeaderSplit(before: seq<Byte>, h: seq<Byte>, body: seq<Byte>)
    requires |h| == 4
    ensures var s := before + LE(0, 4) + body;
            && |s| == |before| + 4 + |body|
            && s[..|before|] + h + s[|before| + 4..] == before + h + body
  {
    var s := before + LE(0, 4) + body;
    assert s[..|before|] == before && s[|before| + 4..] == body;
  }

  /** Lines 205-209 and 213-217: everything that is queued is given up for one error response. */
  method ReplaceAll(out: Buffer, code: Byte, text: Str)
    requires out.Valid() && |text| < 100
    modifies out, out.mem
    ensures out.Valid() && (out.mem == old(out.mem) || fresh(out.mem))
    ensures out.Contents() == Response(Err(code, text))
  {
    hide Encode;
    hide LE;
    out.Whole();
    out.Consume(out.data_length);
    assert out.Contents() == [];
    out.Append(LE(0, 4));
    var val := OutErr(out, code, text);
    ghost var e := Encode(Err(code, text));
    HeaderSplit([], LE(val, 4), e);
    assert out.Contents() == [] + LE(0, 4) + e;
    out.Whole();
    out.Patch(val + 4, LE(val, 4));
    assert [] + LE(val, 4) + e == LE(val, 4) + e;
  }

  /** Writes the length of a response in front of it. Only a response of at most MAX_MSG bytes ends up
      in the queue. For a longer one the queue is emptied, with the responses to earlier requests in
      it; in the end it holds the bytes of a single error response, except that the stale length may have
      been written over those from `at` on, unless it was written outside the allocation. */
  method ResponseEnd(out: Buffer, rv: nat, ghost before: seq<Byte>, ghost body: seq<Byte>)
    returns (stray: bool, ghost at: int)
    requires out.Valid()
    requires out.Contents() == before + LE(0, 4) + body && |body| == rv
    modifies out, out.mem
    ensures out.Valid() && (out.mem == old(out.mem) || fresh(out.mem))
    ensures rv <= MAX_MSG ==> !stray
    ensures out.Contents() == before + LE(rv, 4) + body <==> rv <= MAX_MSG
    ensures var e := Response(Err(ERR_UNEXPECTED, Ascii("unexpected error in error")));
            rv > MAX_MSG ==>
              && |out.Contents()| == |e| == 35
              && forall i :: 0 <= i < 35 && !(at <= i < at + 4) ==> out.Contents()[i] == e[i]
  {
    hide LE;
    hide Encode;
    hide Ascii;
    HeaderSplit(before, LE(rv, 4), body);
    out.Whole();
    stray := false;
    if rv > MAX_MSG {
      ReplaceAll(out, ERR_OUT_OF_RANGE, Ascii("response is too long"));
      ErrorLength(ERR_OUT_OF_RANGE, Ascii("response is too long"));
      out.Whole();
    }
    var block, lenPtr := out.mem, out.data_end - rv - 4;
    if lenPtr < out.data_begin {
      ReplaceAll(out, ERR_UNEXPECTED, Ascii("unexpected error in error"));
      ErrorLength(ERR_UNEXPECTED, Ascii("unexpected error in error"));
      out.Whole();
    }
    at := lenPtr - out.data_begin;
    if lenPtr < 0 || block != out.mem || lenPtr + 4 > out.mem.Length {
      stray := true;
    } else {
      out.Poke(lenPtr, LE(rv, 4));
      out.Whole();
    }
  }

  lemma ErrorLength(code: Byte, text: Str)
    ensures |Response(Err(code, text))| == 10 + |text|
  {
  }

  // ---------------------------------------------------------------- one request

  class Conn {
    const incoming: Buffer
    const outgoing: Buffer
    var want_close: bool

    constructor ()
      ensures Valid() && !want_close && incoming.Contents() == [] && outgoing.Contents() == []
      ensures fresh(incoming) && fresh(outgoing) && fresh(incoming.mem) && fresh(outgoing.mem)
    {
      incoming := new Buffer(64 * 1024);
      outgoing := new Buffer(64 * 1024);
      want_close := false;
    }

    ghost predicate Valid()
      reads this, incoming, outgoing
    {
      && incoming.Valid() && outgoing.Valid()
      && incoming != outgoing && incoming.mem != outgoing.mem
    }
  }

  /** The connection shares nothing with the keyspace. */
  ghost predicate Ready(srv: Server, conn: Conn)
    reads srv, srv.ks, srv.ks.Repr, conn, conn.incoming, conn.outgoing
  {
    && srv.Valid() && conn.Valid() && conn !in srv.ks.Repr
    && srv.Apart(conn.incoming) && srv.Apart(conn.outgoing)
  }

  datatype Progress = Again | Wait | Lost

  /** What one attempt did, given what stood at the front. */
  ghost predicate Attempt(lib: Library, f: Front, now: nat, p: Progress, o: Outcome, s: State, s': State,
                          inc: seq<Byte>, inc': seq<Byte>, out: seq<Byte>, out': seq<Byte>, close: bool, close': bool) {
    match f
    case NeedMore => p == Wait && s' == s && inc' == inc && out' == out && close' == close
    case Malformed => p == Wait && s' == s && inc' == inc && out' == out && close'
    case Frame(cmd, rest) =>
      && Step(lib, s, cmd, now, o, s')
      && p != Wait && close' == close
      && (p == Again ==> o.Replied? && inc' == rest)
      && (p == Lost ==> o.Crashed? || |Encode(o.reply)| > MAX_MSG)
      && (o.Replied? && |Encode(o.reply)| <= MAX_MSG ==> out' == out + Response(o.reply))
  }

  /** A request at the front tells the server to stop. */
  predicate Tells(f: Front) {
    f.Frame? && IsSdie(f.cmd)
  }

  /** What lines 223-243 find in the queue of received bytes. */
  datatype Peeked = TooShort | Bad | Whole(len: nat, cmd: seq<Str>)

  /** What was found is what stands there. */
  ghost predicate Tallies(r: Peeked, inc: seq<Byte>) {
    match NextFrame(inc)
    case NeedMore => r == TooShort
    case Malformed => r == Bad
    case Frame(cmd, rest) => r.Whole? && r.cmd == cmd && 4 + r.len <= |inc| && rest == inc[4 + r.len..]
  }

  method Peek(incoming: Buffer) returns (r: Peeked)
    requires incoming.Valid()
    ensures Tallies(r, incoming.Contents()) && (r.Whole? ==> 4 + r.len <= incoming.data_length)
    ensures r == Bad <==> BadStart(incoming.Contents())
    ensures r == TooShort <==> ShortStart(incoming.Contents())
    ensures r.Whole? ==>
              var inc := incoming.Contents();
              && r.len == FromLE(inc[..4]) && 4 + r.len <= |inc|
              && |r.cmd| <= MAX_CMDS && EncodeReq(r.cmd) == inc[4..4 + r.len]
  {
    hide *;
    incoming.Part(0, 0);
    if incoming.data_length < 4 {
      r := TooShort;
    } else {
      var start := incoming.data_begin;
      incoming.Part(0, 4);
      assert incoming.Contents()[0..4] == incoming.Contents()[..4];
      var len := FromLE(incoming.mem[start..start + 4]);
      if len > MAX_MSG {
        r := Bad;
      } else if 4 + len > incoming.data_length {
        r := TooShort;
      } else {
        incoming.Part(4, 4 + len);
        var cmd := ParseReq(incoming.mem[start + 4..start + 4 + len]);
        r := if cmd == None then Bad else Whole(len, cmd.value);
      }
    }
    Found(incoming.Contents(), r);
    Means(incoming.Contents(), r);
  }

  /** The walk of lines 223-243 finds what `NextFrame` says. */
  lemma Found(inc: seq<Byte>, r: Peeked)
    requires |inc| < 4 ==> r == TooShort
    requires |inc| >= 4 ==>
               var len := FromLE(inc[..4]);
               if len > MAX_MSG then r == Bad
               else if 4 + len > |inc| then r == TooShort
               else
                 var cmd := ParsePayload(inc[4..4 + len]);
                 r == if cmd == None then Bad else Whole(len, cmd.value)
    ensures Tallies(r, inc) && (r.Whole? ==> r.len == FromLE(inc[..4]))
  {
    hide ParsePayload;
    hide FromLE;
  }

  lemma Means(inc: seq<Byte>, r: Peeked)
    requires Tallies(r, inc) && (r.Whole? ==> |inc| >= 4 && r.len == FromLE(inc[..4]))
    ensures (r == Bad <==> BadStart(inc)) && (r == TooShort <==> ShortStart(inc))
    ensures r.Whole? ==> 4 + r.len <= |inc| && |r.cmd| <= MAX_CMDS && EncodeReq(r.cmd) == inc[4..4 + r.len]
  {
    FrontIs(inc);
    WholeIs(inc);
    hide NextFrame;
    hide BadStart;
    hide ShortStart;
    hide EncodeReq;
  }

  lemma WholeIs(inc: seq<Byte>)
    ensures NextFrame(inc).Frame? ==>
              var len := FromLE(inc[..4]);
              4 + len <= |inc| && |NextFrame(inc).cmd| <= MAX_CMDS && EncodeReq(NextFrame(inc).cmd) == inc[4..4 + len]
  {
    if NextFrame(inc).Frame? {
      ParseInvertsEncode(inc[4..4 + FromLE(inc[..4])], NextFrame(inc).cmd);
    }
  }

  /** Lines 244-246: the request is run and its response framed. */
  method Serve(srv: Server, cmd: seq<Str>, out: Buffer, now: nat) returns (ok: bool, ghost o: Outcome)
    requires srv.Valid() && srv.Apart(out)
    modifies srv.ks.Repr, srv`is_running, out, out.mem
    ensures srv.Valid() && srv.Apart(out) && fresh(srv.ks.Repr - old(srv.ks.Repr))
    ensures out.mem == old(out.mem) || fresh(out.mem)
    ensures Step(srv.lib, old(srv.ks.State()), cmd, now, o, srv.ks.State())
    ensures if ok then o.Replied? else o.Crashed? || |Encode(o.reply)| > MAX_MSG
    ensures o.Replied? && |Encode(o.reply)| <= MAX_MSG ==>
              out.Contents() == old(out.Contents()) + Response(o.reply)
    ensures srv.is_running == (old(srv.is_running) && !IsSdie(cmd))
  {
    hide Keyspace.Valid;
    hide Keyspace.State;
    hide Encode;
    hide LE;
    hide Step;
    ghost var before := out.Contents();
    ResponseBegin(out);
    var n;
    n, o := srv.DoRequest(cmd, out, now);
    if n == None {
      return false, o;
    }
    var stray;
    ghost var at;
    stray, at := ResponseEnd(out, n.value, before, Encode(o.reply));
    assert before + LE(n.value, 4) + Encode(o.reply) == before + Response(o.reply);
    ok := !stray;
  }

  method TryOneRequest(srv: Server, conn: Conn, now: nat) returns (p: Progress, ghost o: Outcome)
    requires Ready(srv, conn)
    modifies srv.ks.Repr, srv`is_running, conn`want_close
    modifies conn.incoming`data_begin, conn.incoming`data_length, conn.outgoing, conn.outgoing.mem
    ensures Ready(srv, conn) && fresh(srv.ks.Repr - old(srv.ks.Repr))
    ensures conn.outgoing.mem == old(conn.outgoing.mem) || fresh(conn.outgoing.mem)
    ensures Attempt(srv.lib, NextFrame(old(conn.incoming.Contents())), now, p, o, old(srv.ks.State()), srv.ks.State(),
                    old(conn.incoming.Contents()), conn.incoming.Contents(),
                    old(conn.outgoing.Contents()), conn.outgoing.Contents(), old(conn.want_close), conn.want_close)
    ensures srv.is_running == (old(srv.is_running) && !Tells(NextFrame(old(conn.incoming.Contents()))))
    ensures conn.want_close == (old(conn.want_close) || BadStart(old(conn.incoming.Contents())))
  {
    hide BadStart;
    hide ShortStart;
    hide EncodeReq;
    hide FromLE;
    hide Keyspace.Valid;
    hide Keyspace.State;
    hide Encode;
    hide LE;
    hide IsSdie;
    hide NextFrame;
    hide Step;
    hide Response;
    o := Crashed;
    var front := Peek(conn.incoming);
    match front
    case TooShort => p := Wait;
    case Bad =>
      conn.want_close := true;
      p := Wait;
    case Whole(len, cmd) =>
      var ok;
      ok, o := Serve(srv, cmd, conn.outgoing, now);
      if !ok {
        return Lost, o;
      }
      conn.incoming.Consume(4 + len);
      p := Again;
  }

  // ---------------------------------------------------------------- one read

  /** A request that was served: its reply, and the state afterwards. */
  datatype Served = Served(cmd: seq<Str>, reply: Reply, after: State)

  ghost function Requests(served: seq<Served>): seq<seq<Str>> {
    seq(|served|, i requires 0 <= i < |served| => served[i].cmd)
  }

  /** The state when the request with the number `i` comes, or the last one. */
  ghost function StateAt(s: State, served: seq<Served>, i: nat): State
    requires i <= |served|
  {
    if i == 0 then s else served[i - 1].after
  }

  ghost predicate StepAt(lib: Library, s: State, served: seq<Served>, i: nat, now: nat)
    requires i < |served|
  {
    Step(lib, StateAt(s, served, i), served[i].cmd, now, Replied(served[i].reply), served[i].after)
  }

  /** Each request was a step from the state that the one before left, at its own time. */
  ghost predicate Run(lib: Library, s: State, served: seq<Served>, clock: nat -> nat) {
    forall i :: 0 <= i < |served| ==> StepAt(lib, s, served, i, clock(i))
  }

  ghost predicate Fit(served: seq<Served>) {
    forall v :: v in served ==> |Encode(v.reply)| <= MAX_MSG
  }

  /** One of the requests told the server to stop. */
  ghost predicate ToldToStop(served: seq<Served>) {
    exists i :: 0 <= i < |served| && IsSdie(served[i].cmd)
  }

  /** The responses, in the order of the requests. */
  ghost function Sent(served: seq<Served>): seq<Byte> {
    if served == [] then [] else Sent(served[..|served| - 1]) + Response(served[|served| - 1].reply)
  }

  lemma OneServed(lib: Library, s: State, served: seq<Served>, clock: nat -> nat, v: Served)
    requires Run(lib, s, served, clock)
    requires Step(lib, StateAt(s, served, |served|), v.cmd, clock(|served|), Replied(v.reply), v.after)
    ensures Run(lib, s, served + [v], clock) && StateAt(s, served + [v], |served| + 1) == v.after
  {
    hide Step;
    var all := served + [v];
    forall i | 0 <= i < |all| ensures StepAt(lib, s, all, i, clock(i)) {
      assert StateAt(s, all, i) == StateAt(s, served, i);
      if i < |served| {
        assert StepAt(lib, s, served, i, clock(i));
      }
    }
  }

  lemma OneSent(served: seq<Served>, v: Served)
    ensures Requests(served + [v]) == Requests(served) + [v.cmd]
    ensures Sent(served + [v]) == Sent(served) + Response(v.reply)
    ensures Fit(served + [v]) <==> Fit(served) && |Encode(v.reply)| <= MAX_MSG
    ensures ToldToStop(served + [v]) <==> ToldToStop(served) || IsSdie(v.cmd)
  {
    hide Encode;
    hide Response;
    hide IsSdie;
    var all := served + [v];
    assert all[..|served|] == served && all[|served|] == v;
    assert v in all && forall w :: w in served ==> w in all;
    if ToldToStop(served) {
      var i :| 0 <= i < |served| && IsSdie(served[i].cmd);
      assert all[i] == served[i];
    }
  }

  /** What is left to decode, behind the commands that were served. */
  ghost predicate Remaining(all: seq<Byte>, served: seq<Served>, inc: seq<Byte>) {
    var d := Decode(inc);
    Decode(all) == Decoded(Requests(served) + d.cmds, d.rest, d.closed)
  }

  lemma NextRemaining(all: seq<Byte>, served: seq<Served>, inc: seq<Byte>, v: Served)
    requires Remaining(all, served, inc) && NextFrame(inc).Frame? && v.cmd == NextFrame(inc).cmd
    ensures Remaining(all, served + [v], NextFrame(inc).rest)
    ensures |served| < |Decode(all).cmds| && Decode(all).cmds[|served|] == v.cmd
    ensures Requests(served) == Decode(all).cmds[..|served|]
  {
    assert |Requests(served)| == |served|;
    hide NextFrame;
    hide Decode;
    hide Requests;
    DecodeFront(inc);
    OneSent(served, v);
    NextOf(Requests(served), v.cmd, Decode(NextFrame(inc).rest).cmds);
  }

  lemma NextOf<T>(a: seq<T>, x: T, b: seq<T>)
    ensures var s := a + ([x] + b); s == a + [x] + b && s[|a|] == x && s[..|a|] == a
  {
  }

  lemma NoneRemaining(all: seq<Byte>, served: seq<Served>, inc: seq<Byte>)
    requires Remaining(all, served, inc) && !NextFrame(inc).Frame?
    ensures Decode(all) == Decoded(Requests(served), inc, NextFrame(inc).Malformed?)
  {
    hide NextFrame;
    DecodeFront(inc);
    assert Requests(served) + [] == Requests(served);
  }

  /** What stopped a process that is lost: the request after those served either ends it or has a
      response that does not fit. */
  ghost predicate LostOn(lib: Library, s: State, cmd: seq<Str>, now: nat) {
    exists o, s' :: Step(lib, s, cmd, now, o, s') && (o.Crashed? || |Encode(o.reply)| > MAX_MSG)
  }

  lemma NoneServed(lib: Library, s: State, clock: nat -> nat, all: seq<Byte>, out: seq<Byte>)
    ensures Run(lib, s, [], clock) && StateAt(s, [], 0) == s && Remaining(all, [], all)
    ensures Fit([]) && out + Sent([]) == out && !ToldToStop([])
  {
    hide Decode;
    assert Requests([]) + Decode(all).cmds == Decode(all).cmds;
    assert out + [] == out;
  }

  lemma LostBy(lib: Library, s: State, cmd: seq<Str>, now: nat, o: Outcome, s': State)
    requires Step(lib, s, cmd, now, o, s') && (o.Crashed? || |Encode(o.reply)| > MAX_MSG)
    ensures LostOn(lib, s, cmd, now)
  {
  }

  /** How far a read has come when the last attempt ended with `p`: the requests `served` so far, the
      state `st`, the bytes left, and what has been queued behind `out0`. */
  ghost predicate ReadSoFar(lib: Library, s: State, clock: nat -> nat, all: seq<Byte>, served: seq<Served>, p: Progress,
                            st: State, inc: seq<Byte>, out0: seq<Byte>, out: seq<Byte>, close0: bool, close: bool) {
    var d := Decode(all);
    var last := StateAt(s, served, |served|);
    && Run(lib, s, served, clock)
    && (p != Lost ==> st == last && (Fit(served) ==> out == out0 + Sent(served)))
    && match p
       case Again => Remaining(all, served, inc) && close == close0
       case Wait => Requests(served) == d.cmds && inc == d.rest && close == (close0 || d.closed)
       case Lost =>
         && |served| < |d.cmds| && Requests(served) == d.cmds[..|served|]
         && LostOn(lib, last, d.cmds[|served|], clock(|served|))
  }

  lemma ReadOn(lib: Library, s: State, clock: nat -> nat, all: seq<Byte>, served: seq<Served>, st: State, st': State,
               inc: seq<Byte>, inc': seq<Byte>, out0: seq<Byte>, out: seq<Byte>, out': seq<Byte>,
               close0: bool, close: bool, close': bool, p: Progress, o: Outcome)
    returns (served': seq<Served>)
    requires ReadSoFar(lib, s, clock, all, served, Again, st, inc, out0, out, close0, close)
    requires Attempt(lib, NextFrame(inc), clock(|served|), p, o, st, st', inc, inc', out, out', close, close')
    ensures ReadSoFar(lib, s, clock, all, served', p, st', inc', out0, out', close0, close')
    ensures p == Again ==> |served'| == |served| + 1 && |inc'| < |inc|
    ensures p != Lost ==> (ToldToStop(served') <==> ToldToStop(served) || Tells(NextFrame(inc)))
  {
    hide Step;
    hide NextFrame;
    hide Decode;
    hide Encode;
    hide Response;
    hide Sent;
    hide Fit;
    hide Run;
    hide Requests;
    hide Remaining;
    hide LostOn;
    hide StateAt;
    hide ToldToStop;
    hide IsSdie;
    served' := served;
    if !NextFrame(inc).Frame? {
      NoneRemaining(all, served, inc);
    } else {
      var cmd := NextFrame(inc).cmd;
      var v := Served(cmd, if o.Replied? then o.reply else Nil, st');
      NextRemaining(all, served, inc, v);
      if p == Again {
        OneServed(lib, s, served, clock, v);
        OneSent(served, v);
        assert out0 + Sent(served) + Response(v.reply) == out0 + (Sent(served) + Response(v.reply));
        served' := served + [v];
      } else {
        LostBy(lib, st, cmd, clock(|served|), o, st');
      }
    }
  }

  /** Lines 283-284. Every complete request among the bytes received is served, in order; `clock`
      tells the time at each of them. */
  method HandleRead(srv: Server, conn: Conn, buf: seq<Byte>, clock: nat -> nat)
    returns (lost: bool, ghost served: seq<Served>)
    requires Ready(srv, conn)
    modifies srv.ks.Repr, srv`is_running, conn, conn.incoming, conn.incoming.mem, conn.outgoing, conn.outgoing.mem
    ensures Ready(srv, conn) && fresh(srv.ks.Repr - old(srv.ks.Repr))
    ensures conn.incoming.mem == old(conn.incoming.mem) || fresh(conn.incoming.mem)
    ensures conn.outgoing.mem == old(conn.outgoing.mem) || fresh(conn.outgoing.mem)
    ensures Run(srv.lib, old(srv.ks.State()), served, clock)
    ensures var d := Decode(old(conn.incoming.Contents()) + buf);
            var s := StateAt(old(srv.ks.State()), served, |served|);
            if lost then
              && |served| < |d.cmds| && Requests(served) == d.cmds[..|served|]
              && LostOn(srv.lib, s, d.cmds[|served|], clock(|served|))
            else
              && Requests(served) == d.cmds && conn.incoming.Contents() == d.rest
              && conn.want_close == (old(conn.want_close) || d.closed)
              && srv.ks.State() == s
              && (Fit(served) ==> conn.outgoing.Contents() == old(conn.outgoing.Contents()) + Sent(served))
              && srv.is_running == (old(srv.is_running) && !ToldToStop(served))
    ensures !lost ==> var left := conn.incoming.Contents();
              && conn.want_close == (old(conn.want_close) || BadStart(left))
              && (ShortStart(left) <==> !BadStart(left))
  {
    hide BadStart;
    hide ShortStart;
    hide Keyspace.Valid;
    hide Keyspace.State;
    hide ToldToStop;
    hide Tells;
    hide Attempt;
    hide NextFrame;
    hide Decode;
    hide Sent;
    hide Fit;
    hide Run;
    hide Requests;
    hide Remaining;
    hide LostOn;
    hide StateAt;
    ghost var s, out := srv.ks.State(), conn.outgoing.Contents();
    conn.incoming.Append(buf);
    ghost var all := conn.incoming.Contents();
    ClosedMeansBad(all);
    NoneServed(srv.lib, s, clock, all, out);
    served := [];
    var p, i := Again, 0;
    while p == Again
      invariant Ready(srv, conn) && fresh(srv.ks.Repr - old(srv.ks.Repr))
      invariant conn.incoming.mem == old(conn.incoming.mem) || fresh(conn.incoming.mem)
      invariant conn.outgoing.mem == old(conn.outgoing.mem) || fresh(conn.outgoing.mem)
      invariant p == Again ==> i == |served|
      invariant p != Lost ==> srv.is_running == (old(srv.is_running) && !ToldToStop(served))
      invariant ReadSoFar(srv.lib, s, clock, all, served, p, srv.ks.State(), conn.incoming.Contents(),
                          out, conn.outgoing.Contents(), old(conn.want_close), conn.want_close)
      decreases if p == Again then 1 + |conn.incoming.Contents()| else 0
    {
      ghost var st, close := srv.ks.State(), conn.want_close;
      ghost var inc, before := conn.incoming.Contents(), conn.outgoing.Contents();
      ghost var o;
      p, o := TryOneRequest(srv, conn, clock(i));
      served := ReadOn(srv.lib, s, clock, all, served, st, srv.ks.State(), inc, conn.incoming.Contents(),
                       out, before, conn.outgoing.Contents(), old(conn.want_close), close, conn.want_close, p, o);
      i := i + 1;
    }
    lost := p == Lost;
  }

  /** Line 260: the operating system has taken the first bytes of the queue, at most `n` of them. */
  method Drain(conn: Conn, n: nat) returns (bytes: seq<Byte>)
    requires conn.Valid()
    modifies conn.outgoing`data_begin, conn.outgoing`data_length
    ensures conn.Valid() && bytes + conn.outgoing.Contents() == old(conn.outgoing.Contents())
    ensures |bytes| == if n < |old(conn.outgoing.Contents())| then n else |old(conn.outgoing.Contents())|
  {
    var b := conn.outgoing;
    var rv := if n < b.data_length then n else b.data_length;
    bytes := b.mem[b.data_begin..b.data_begin + rv];
    b.Consume(rv);
  }

  // ---------------------------------------------------------------- a run as a session

  ghost predicate AgreesAt(step: (State, seq<Str>) -> (State, Reply), s: State, served: seq<Served>, i: nat)
    requires i < |served|
  {
    step(StateAt(s, served, i), served[i].cmd) == (served[i].after, served[i].reply)
  }

  /** The requests were answered as the function `step` tells. */
  ghost predicate Agrees(step: (State, seq<Str>) -> (State, Reply), s: State, served: seq<Served>) {
    forall i :: 0 <= i < |served| ==> AgreesAt(step, s, served, i)
  }

  lemma AgreesBefore(step: (State, seq<Str>) -> (State, Reply), s: State, served: seq<Served>)
    requires Agrees(step, s, served) && served != []
    ensures Agrees(step, s, served[..|served| - 1])
    ensures StateAt(s, served[..|served| - 1], |served| - 1) == StateAt(s, served, |served| - 1)
    ensures AgreesAt(step, s, served, |served| - 1)
  {
    var most := served[..|served| - 1];
    forall i | 0 <= i < |most| ensures AgreesAt(step, s, most, i) {
      assert AgreesAt(step, s, served, i) && StateAt(s, most, i) == StateAt(s, served, i);
    }
  }

  lemma {:induction false} AgreesResponds(step: (State, seq<Str>) -> (State, Reply), s: State, served: seq<Served>)
    requires Agrees(step, s, served)
    ensures Respond(step, s, Requests(served)) == (StateAt(s, served, |served|), Sent(served))
    decreases |served|
  {
    hide Response;
    hide Agrees;
    if served == [] {
      assert Requests(served) == [];
    } else {
      var n := |served| - 1;
      var most, v := served[..n], served[n];
      AgreesBefore(step, s, served);
      AgreesResponds(step, s, most);
      assert Requests(served) == Requests(most) + [v.cmd];
      RespondLater(step, s, Requests(most), [v.cmd]);
      RespondOne(step, StateAt(s, most, n), v.cmd);
    }
  }

  lemma RespondOne(step: (State, seq<Str>) -> (State, Reply), s: State, cmd: seq<Str>)
    ensures Respond(step, s, [cmd]) == (step(s, cmd).0, Response(step(s, cmd).1))
  {
    assert [cmd][1..] == [];
    assert Response(step(s, cmd).1) + [] == Response(step(s, cmd).1);
  }

  /** What `HandleRead` promises is what `Receive` computes, so that however the bytes are split into
      reads the same commands are decoded and the same bytes sent (`ChunkingDoesNotMatter`). */
  lemma ReadIsReceive(step: (State, seq<Str>) -> (State, Reply), c: Session<State>, buf: seq<Byte>, served: seq<Served>)
    requires !c.closed && Agrees(step, c.state, served)
    requires Requests(served) == Decode(c.pending + buf).cmds
    ensures var d := Decode(c.pending + buf);
            Receive(step, c, buf) ==
            Session(d.rest, d.closed, c.cmds + Requests(served), StateAt(c.state, served, |served|),
                    c.sent + Sent(served))
  {
    hide Decode;
    AgreesResponds(step, c.state, served);
  }
}
