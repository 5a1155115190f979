/** The main loop of the server (server/MRD_server.cpp:309-367) over any number of connections: bytes
    arrive on them in any order and in any pieces, and timer ticks come in between. */
module MainLoops {
  import opened Bytes
  import opened Codec
  import opened Spec
  import opened Commands
  import opened Keyspaces
  import opened Servers
  import opened Framing
  import opened Connections
  import Runs

  /** What a turn of the loop finds: bytes on a connection, with the time at each request in them; room
      for bytes to be sent; or the end of a round, when the timers are run. */
  datatype Input =
    | Arrives(conn: nat, buf: seq<Byte>, clock: nat -> nat)
    | Drains(conn: nat, n: nat)
    | RoundEnds(now: nat)

  /** A moment of the run of the server; requests bear the number of their connection. */
  datatype Tagged = OnConn(conn: nat, served: Served, now: nat) | Ticks(now: nat, after: State)

  ghost function MomentOf(g: Tagged): Runs.Moment {
    match g
    case OnConn(_, v, now) => Runs.Moment(Runs.Request(v.cmd, now), Replied(v.reply), v.after)
    case Ticks(now, after) => Runs.Moment(Runs.Tick(now), Replied(Nil), after)
  }

  ghost function Moments(t: seq<Tagged>): (m: seq<Runs.Moment>)
    ensures |m| == |t|
  {
    seq(|t|, i requires 0 <= i < |t| => MomentOf(t[i]))
  }

  /** The requests served on one connection. */
  ghost function On(t: seq<Tagged>, j: nat): seq<Served> {
    if t == [] then []
    else
      var g := t[|t| - 1];
      On(t[..|t| - 1], j) + if g.OnConn? && g.conn == j then [g.served] else []
  }

  /** The bytes that have come on one connection. */
  ghost function Stream(inputs: seq<Input>, j: nat): seq<Byte> {
    if inputs == [] then []
    else
      var e := inputs[|inputs| - 1];
      Stream(inputs[..|inputs| - 1], j) + if e.Arrives? && e.conn == j then e.buf else []
  }

  ghost function TagAll(j: nat, served: seq<Served>, clock: nat -> nat): (t: seq<Tagged>)
    ensures |t| == |served|
  {
    seq(|served|, i requires 0 <= i < |served| => OnConn(j, served[i], clock(i)))
  }

  // ---------------------------------------------------------------- the schedule

  /** Something the server has to do: a request of a connection, or the timers. */
  datatype Job = Serves(conn: nat, cmd: seq<Str>, now: nat) | Fires(now: nat)

  /** The jobs that a trace has done. */
  ghost function Jobs(t: seq<Tagged>): (js: seq<Job>)
    ensures |js| == |t|
  {
    seq(|t|, i requires 0 <= i < |t| =>
      match t[i]
      case OnConn(j, v, now) => Serves(j, v.cmd, now)
      case Ticks(now, _) => Fires(now))
  }

  ghost function JobsOn(j: nat, cmds: seq<seq<Str>>, clock: nat -> nat): (js: seq<Job>)
    ensures |js| == |cmds|
  {
    seq(|cmds|, i requires 0 <= i < |cmds| => Serves(j, cmds[i], clock(i)))
  }

  /** The requests that `buf` completes on a connection. */
  ghost function Completed(before: seq<Input>, j: nat, buf: seq<Byte>): seq<seq<Str>> {
    var d := Decode(Stream(before, j));
    if d.closed then [] else Decode(d.rest + buf).cmds
  }

  /** What one more input asks of the server. */
  ghost function JobsOf(before: seq<Input>, e: Input): seq<Job> {
    match e
    case Arrives(j, buf, clock) => JobsOn(j, Completed(before, j, buf), clock)
    case Drains(_, _) => []
    case RoundEnds(now) => [Fires(now)]
  }

  /** What the inputs ask of the server, said without it. */
  ghost function Schedule(inputs: seq<Input>): seq<Job> {
    if inputs == [] then []
    else
      var before := inputs[..|inputs| - 1];
      Schedule(before) + JobsOf(before, inputs[|inputs| - 1])
  }

  lemma ScheduleNext(inputs: seq<Input>, i: nat)
    requires i < |inputs|
    ensures Schedule(inputs[..i + 1]) == Schedule(inputs[..i]) + JobsOf(inputs[..i], inputs[i])
  {
    assert inputs[..i + 1][..i] == inputs[..i];
  }

  /** What one more input adds to the schedule, in terms of the streams: the end of a round, the timers at
      its time; bytes, the requests by which the connection's stream is longer, each at its own time. */
  lemma ScheduleGrows(inputs: seq<Input>, i: nat)
    requires i < |inputs|
    ensures var js, js' := Schedule(inputs[..i]), Schedule(inputs[..i + 1]);
            js <= js' && match inputs[i]
            case RoundEnds(now) => js' == js + [Fires(now)]
            case Drains(_, _) => js' == js
            case Arrives(j, _, clock) =>
              var cmds, cmds' := Decode(Stream(inputs[..i], j)).cmds, Decode(Stream(inputs[..i + 1], j)).cmds;
              && cmds <= cmds' && |js'| - |js| == |cmds'| - |cmds|
              && forall m :: 0 <= m < |cmds'| - |cmds| ==> JobAt(js', |js| + m, Serves(j, cmds'[|cmds| + m], clock(m)))
  {
    hide Decode;
    hide Schedule;
    hide Stream;
    hide Completed;
    hide JobsOn;
    hide JobAt;
    ScheduleNext(inputs, i);
    var js := Schedule(inputs[..i]);
    match inputs[i]
    case RoundEnds(_) =>
    case Drains(_, _) => assert js + [] == js;
    case Arrives(j, buf, clock) =>
      StreamNext(inputs, i);
      CompletedIs(inputs[..i], j, buf);
      JobsBehind(js, j, Decode(Stream(inputs[..i], j)).cmds, Completed(inputs[..i], j, buf), clock);
  }

  lemma StreamNext(inputs: seq<Input>, i: nat)
    requires i < |inputs| && inputs[i].Arrives?
    ensures Stream(inputs[..i + 1], inputs[i].conn) == Stream(inputs[..i], inputs[i].conn) + inputs[i].buf
  {
    assert inputs[..i + 1][..i] == inputs[..i] && inputs[..i + 1][i] == inputs[i];
  }

  lemma JobsBehind(js: seq<Job>, j: nat, cmds: seq<seq<Str>>, more: seq<seq<Str>>, clock: nat -> nat)
    ensures var js', cmds' := js + JobsOn(j, more, clock), cmds + more;
            && js <= js' && cmds <= cmds' && |js'| - |js| == |cmds'| - |cmds|
            && forall m :: 0 <= m < |cmds'| - |cmds| ==> JobAt(js', |js| + m, Serves(j, cmds'[|cmds| + m], clock(m)))
  {
  }

  ghost predicate JobAt(js: seq<Job>, i: nat, job: Job) {
    i < |js| && js[i] == job
  }

  lemma CompletedIs(before: seq<Input>, j: nat, buf: seq<Byte>)
    ensures Decode(Stream(before, j) + buf).cmds == Decode(Stream(before, j)).cmds + Completed(before, j, buf)
  {
    hide Decode;
    hide Stream;
    DecodeLater(Stream(before, j), buf);
    assert Decode(Stream(before, j)).cmds + [] == Decode(Stream(before, j)).cmds;
  }

  /** One of the jobs tells the server to stop. */
  ghost predicate Told(js: seq<Job>) {
    exists i :: 0 <= i < |js| && js[i].Serves? && IsSdie(js[i].cmd)
  }

  lemma ToldConcat(a: seq<Job>, b: seq<Job>)
    ensures Told(a + b) <==> Told(a) || Told(b)
  {
    hide IsSdie;
    var js := a + b;
    if Told(a) {
      var i :| 0 <= i < |a| && a[i].Serves? && IsSdie(a[i].cmd);
      assert js[i] == a[i];
    }
    if Told(b) {
      var i :| 0 <= i < |b| && b[i].Serves? && IsSdie(b[i].cmd);
      assert js[|a| + i] == b[i];
    }
  }

  /** The first `i` inputs end a round, and by then the server has been told to stop. */
  ghost predicate Stops(inputs: seq<Input>, i: nat)
    requires i <= |inputs|
  {
    i > 0 && inputs[i - 1].RoundEnds? && Told(Schedule(inputs[..i]))
  }

  /** One of the requests in the stream of connection `j` is SDIE. */
  ghost predicate AsksToStop(inputs: seq<Input>, j: nat) {
    exists cmd :: cmd in Decode(Stream(inputs, j)).cmds && IsSdie(cmd)
  }

  /** The loop is to stop at the end of a round by which SDIE has come on some connection. */
  lemma StopsIf(inputs: seq<Input>, i: nat)
    requires i <= |inputs|
    ensures Stops(inputs, i) <==> i > 0 && inputs[i - 1].RoundEnds? && exists j :: AsksToStop(inputs[..i], j)
  {
    hide AsksToStop;
    hide Told;
    ToldIf(inputs[..i]);
  }

  lemma {:induction false} ToldIf(inputs: seq<Input>)
    ensures Told(Schedule(inputs)) <==> exists j :: AsksToStop(inputs, j)
    decreases |inputs|
  {
    if inputs == [] {
      assert Decode([]).cmds == [];
    } else {
      var n := |inputs| - 1;
      var before, e := inputs[..n], inputs[n];
      ToldIf(before);
      forall j {
        AsksMore(before, e, j);
      }
      assert inputs == before + [e];
      hide AsksToStop;
      hide Decode;
      ToldMore(before, e);
      if e.Arrives? {
        assert AsksToStop(inputs, e.conn) <==> AsksToStop(before, e.conn) || Told(JobsOf(before, e));
      }
    }
  }

  lemma ToldMore(before: seq<Input>, e: Input)
    ensures Told(Schedule(before + [e])) <==> Told(Schedule(before)) || Told(JobsOf(before, e))
    ensures !e.Arrives? ==> !Told(JobsOf(before, e))
  {
    hide IsSdie;
    assert (before + [e])[..|before|] == before;
    ToldConcat(Schedule(before), JobsOf(before, e));
  }

  lemma AsksMore(before: seq<Input>, e: Input, j: nat)
    ensures AsksToStop(before + [e], j) <==>
            AsksToStop(before, j) || (e.Arrives? && e.conn == j && Told(JobsOf(before, e)))
  {
    hide IsSdie;
    hide Decode;
    var inputs := before + [e];
    assert inputs[..|before|] == before;
    assert Stream(before, j) + [] == Stream(before, j);
    if e.Arrives? && e.conn == j {
      var more := Completed(before, j, e.buf);
      CompletedIs(before, j, e.buf);
      var js := JobsOn(j, more, e.clock);
      if Told(js) {
        var i :| 0 <= i < |js| && js[i].Serves? && IsSdie(js[i].cmd);
        assert more[i] in Decode(Stream(inputs, j)).cmds;
      }
      if cmd :| cmd in more && IsSdie(cmd) {
        var i :| 0 <= i < |more| && more[i] == cmd;
        assert js[i] == Serves(j, more[i], e.clock(i));
      }
    }
  }

  /** Every request in the schedule has come through the framing. */
  lemma {:induction false} ScheduleIsSendable(inputs: seq<Input>)
    ensures forall i :: 0 <= i < |Schedule(inputs)| && Schedule(inputs)[i].Serves? ==> Sendable(Schedule(inputs)[i].cmd)
  {
    hide Decode;
    hide Sendable;
    if inputs != [] {
      var before, e := inputs[..|inputs| - 1], inputs[|inputs| - 1];
      ScheduleIsSendable(before);
      if e.Arrives? {
        DecodeInvertsFrames(Decode(Stream(before, e.conn)).rest + e.buf);
      }
    }
  }

  /** So the theorems about runs (`Runs.OnlyFatalRequestsCrash`, `Runs.SetThenGet`, ...) are about a trace
      that does what the schedule asks. */
  lemma TraceIsSendable(t: seq<Tagged>, inputs: seq<Input>)
    requires Jobs(t) <= Schedule(inputs)
    ensures Runs.AllSendable(Moments(t))
  {
    hide Schedule;
    hide Sendable;
    ScheduleIsSendable(inputs);
    forall m | m in Moments(t) && m.event.Request? ensures Sendable(m.event.w) {
      var i :| 0 <= i < |t| && Moments(t)[i] == m;
      assert Jobs(t)[i] == Schedule(inputs)[i];
    }
  }

  // ---------------------------------------------------------------- traces grow

  lemma {:induction false} OnAppended(t: seq<Tagged>, j: nat, served: seq<Served>, clock: nat -> nat, k: nat)
    ensures On(t + TagAll(j, served, clock), k) == On(t, k) + if k == j then served else []
    decreases |served|
  {
    var more := TagAll(j, served, clock);
    if served == [] {
      assert t + more == t;
      assert On(t, k) + [] == On(t, k);
    } else {
      var n := |served| - 1;
      var all := t + more;
      assert all[..|all| - 1] == t + TagAll(j, served[..n], clock);
      OnAppended(t, j, served[..n], clock, k);
      assert served[..n] + [served[n]] == served;
    }
  }

  lemma JobsAppended(t: seq<Tagged>, j: nat, served: seq<Served>, clock: nat -> nat)
    ensures Jobs(t + TagAll(j, served, clock)) == Jobs(t) + JobsOn(j, Requests(served), clock)
    ensures Told(JobsOn(j, Requests(served), clock)) <==> ToldToStop(served)
  {
    hide IsSdie;
    var js := JobsOn(j, Requests(served), clock);
    if ToldToStop(served) {
      var i :| 0 <= i < |served| && IsSdie(served[i].cmd);
      assert js[i] == Serves(j, served[i].cmd, clock(i));
    }
    if Told(js) {
      var i :| 0 <= i < |js| && js[i].Serves? && IsSdie(js[i].cmd);
      assert js[i] == Serves(j, served[i].cmd, clock(i));
    }
  }

  lemma RunAppended(lib: Library, s0: State, t: seq<Tagged>, j: nat, served: seq<Served>, clock: nat -> nat)
    requires Runs.IsRun(lib, s0, Moments(t))
    requires Run(lib, Runs.Before(s0, Moments(t), |t|), served, clock)
    ensures var t' := t + TagAll(j, served, clock);
            && Runs.IsRun(lib, s0, Moments(t'))
            && Runs.Before(s0, Moments(t'), |t'|) ==
               StateAt(Runs.Before(s0, Moments(t), |t|), served, |served|)
  {
    hide Step;
    var more := TagAll(j, served, clock);
    var t', s := t + more, Runs.Before(s0, Moments(t), |t|);
    forall i | 0 <= i < |t'| ensures Runs.FollowsAt(lib, s0, Moments(t'), i) {
      if i < |t| {
        assert Runs.FollowsAt(lib, s0, Moments(t), i);
      } else {
        assert StepAt(lib, s, served, i - |t|, clock(i - |t|));
        assert Moments(t')[i] == MomentOf(more[i - |t|]);
      }
    }
  }

  lemma TickAppended(lib: Library, s0: State, t: seq<Tagged>, now: nat, removed: seq<Str>, s': State)
    requires Runs.IsRun(lib, s0, Moments(t)) && Ticked(Runs.Before(s0, Moments(t), |t|), now, removed, s')
    ensures var t' := t + [Ticks(now, s')];
            && Runs.IsRun(lib, s0, Moments(t')) && Runs.Before(s0, Moments(t'), |t'|) == s'
            && forall j :: On(t', j) == On(t, j)
  {
    hide Step;
    hide Ticked;
    var t' := t + [Ticks(now, s')];
    forall i | 0 <= i < |t'| ensures Runs.FollowsAt(lib, s0, Moments(t'), i) {
      if i < |t| {
        assert Runs.FollowsAt(lib, s0, Moments(t), i);
      } else {
        assert Runs.Follows(lib, Runs.Before(s0, Moments(t), |t|), MomentOf(Ticks(now, s')));
      }
    }
    forall j ensures On(t', j) == On(t, j) {
      assert t'[..|t|] == t;
      assert On(t, j) + [] == On(t, j);
    }
  }

  // ---------------------------------------------------------------- one connection among others

  /** What a connection shows: the bytes not yet decoded, those to be sent, and whether it is to be
      closed. */
  datatype Seen = Seen(inc: seq<Byte>, out: seq<Byte>, close: bool)

  /** The connection is where its stream has brought it: all complete requests have been served in
      order, and, if they fit, their responses stand in the queue in the same order. */
  ghost predicate InStep(c: Seen, stream: seq<Byte>, served: seq<Served>) {
    var d := Decode(stream);
    && Requests(served) == d.cmds && c.close == d.closed && (!d.closed ==> c.inc == d.rest)
    && (Fit(served) ==> c.out == Sent(served))
  }

  lemma NoneSent()
    ensures Sent([]) == [] && Fit([]) && Requests([]) == []
  {
  }

  lemma {:induction false} SentConcat(a: seq<Served>, b: seq<Served>)
    ensures Sent(a + b) == Sent(a) + Sent(b)
    ensures Fit(a + b) <==> Fit(a) && Fit(b)
    ensures Requests(a + b) == Requests(a) + Requests(b)
    decreases |b|
  {
    hide *;
    if b == [] {
      NoneSent();
      assert a + b == a && Sent(a) + [] == Sent(a) && Requests(a) + [] == Requests(a);
    } else {
      var n := |b| - 1;
      SentConcat(a, b[..n]);
      assert a + b == (a + b[..n]) + [b[n]] && b == b[..n] + [b[n]];
      OneSent(a + b[..n], b[n]);
      OneSent(b[..n], b[n]);
      assert Sent(a) + (Sent(b[..n]) + Response(b[n].reply)) == Sent(a) + Sent(b[..n]) + Response(b[n].reply);
      assert Requests(a) + (Requests(b[..n]) + [b[n].cmd]) == Requests(a) + Requests(b[..n]) + [b[n].cmd];
    }
  }

  /** A read brings an open connection on; bytes on a closed one change nothing. */
  lemma StepOn(c: Seen, c': Seen, stream: seq<Byte>, served: seq<Served>, buf: seq<Byte>, more: seq<Served>)
    requires InStep(c, stream, served)
    requires if c.close then c' == c && more == []
             else var d := Decode(c.inc + buf);
                  && Requests(more) == d.cmds && c'.inc == d.rest && c'.close == d.closed
                  && (Fit(more) ==> c'.out == c.out + Sent(more))
    ensures InStep(c', stream + buf, served + more)
  {
    hide Decode;
    hide Sent;
    hide Fit;
    hide Requests;
    DecodeLater(stream, buf);
    SentConcat(served, more);
    if c.close {
      assert served + more == served;
    }
  }

  lemma NothingYet()
    ensures InStep(Seen([], [], false), [], [])
  {
    assert Decode([]) == Decoded([], [], false);
    assert Requests([]) == [];
  }

  ghost function View(c: Conn): Seen
    requires c.Valid()
    reads c, c.incoming, c.incoming.mem, c.outgoing, c.outgoing.mem
  {
    Seen(c.incoming.Contents(), c.outgoing.Contents(), c.want_close)
  }

  /** Two connections share neither buffers nor bytes. */
  ghost predicate Separate(c: Conn, d: Conn)
    reads c.incoming, c.outgoing, d.incoming, d.outgoing
  {
    && c != d && c.incoming !in {d.incoming, d.outgoing} && c.outgoing !in {d.incoming, d.outgoing}
    && c.incoming.mem !in {d.incoming.mem, d.outgoing.mem} && c.outgoing.mem !in {d.incoming.mem, d.outgoing.mem}
  }

  ghost function Parts(conns: seq<Conn>): (p: set<object>)
    ensures forall i :: 0 <= i < |conns| ==> conns[i] in p && conns[i].incoming in p && conns[i].outgoing in p
  {
    assert forall i :: 0 <= i < |conns| ==> conns[i] in conns;
    (set c: Conn | c in conns :: c as object) + (set c: Conn | c in conns :: c.incoming as object)
    + (set c: Conn | c in conns :: c.outgoing as object)
  }

  ghost predicate AllReady(srv: Server, conns: seq<Conn>)
    reads srv, srv.ks, srv.ks.Repr, Parts(conns)
  {
    && srv.Valid() && (forall i :: 0 <= i < |conns| ==> Ready(srv, conns[i]))
    && (forall i, j :: 0 <= i < |conns| && 0 <= j < |conns| && i != j ==> Separate(conns[i], conns[j]))
  }

  /** One connection is read, and the others do not notice. */
  method ReadFrom(srv: Server, conns: seq<Conn>, j: nat, buf: seq<Byte>, clock: nat -> nat)
    returns (lost: bool, ghost served: seq<Served>)
    requires AllReady(srv, conns) && j < |conns|
    modifies srv.ks.Repr, srv`is_running, conns[j]
    modifies conns[j].incoming, conns[j].incoming.mem, conns[j].outgoing, conns[j].outgoing.mem
    ensures AllReady(srv, conns) && fresh(srv.ks.Repr - old(srv.ks.Repr))
    ensures forall k :: 0 <= k < |conns| ==>
              conns[k].incoming.mem == old(conns[k].incoming.mem) || fresh(conns[k].incoming.mem)
    ensures forall k :: 0 <= k < |conns| ==>
              conns[k].outgoing.mem == old(conns[k].outgoing.mem) || fresh(conns[k].outgoing.mem)
    ensures forall k :: 0 <= k < |conns| && k != j ==> View(conns[k]) == old(View(conns[k]))
    ensures Run(srv.lib, old(srv.ks.State()), served, clock)
    ensures var d := Decode(old(conns[j].incoming.Contents()) + buf);
            var s, c := StateAt(old(srv.ks.State()), served, |served|), View(conns[j]);
            if lost then
              && |served| < |d.cmds| && Requests(served) == d.cmds[..|served|]
              && LostOn(srv.lib, s, d.cmds[|served|], clock(|served|))
            else
              && Requests(served) == d.cmds && c.inc == d.rest && srv.ks.State() == s
              && c.close == (old(conns[j].want_close) || d.closed)
              && (Fit(served) ==> c.out == old(conns[j].outgoing.Contents()) + Sent(served))
              && srv.is_running == (old(srv.is_running) && !ToldToStop(served))
  {
    hide Keyspace.Valid;
    hide Keyspace.State;
    hide ToldToStop;
    hide Run;
    hide Requests;
    hide Decode;
    hide StateAt;
    hide LostOn;
    hide Fit;
    hide Sent;
    lost, served := HandleRead(srv, conns[j], buf, clock);
  }

  /** A tick, which no connection notices. */
  method RunTimers(srv: Server, conns: seq<Conn>, now: nat) returns (ghost removed: seq<Str>)
    requires AllReady(srv, conns)
    modifies srv.ks.Repr
    ensures AllReady(srv, conns) && srv.ks.Repr == old(srv.ks.Repr)
    ensures forall k :: 0 <= k < |conns| ==> View(conns[k]) == old(View(conns[k]))
    ensures Ticked(old(srv.ks.State()), now, removed, srv.ks.State())
  {
    hide Keyspace.Valid;
    hide Keyspace.State;
    hide Ticked;
    removed := srv.ks.ProcessTimers(now);
  }

  /** Bytes of one connection are sent, and nothing else notices. */
  method SendFrom(srv: Server, conns: seq<Conn>, j: nat, n: nat) returns (bytes: seq<Byte>)
    requires AllReady(srv, conns) && j < |conns|
    modifies conns[j].outgoing`data_begin, conns[j].outgoing`data_length
    ensures AllReady(srv, conns) && srv.ks.State() == old(srv.ks.State())
    ensures forall k :: 0 <= k < |conns| && k != j ==> View(conns[k]) == old(View(conns[k]))
    ensures var c, c' := old(View(conns[j])), View(conns[j]);
            && c' == c.(out := c'.out) && bytes + c'.out == c.out
            && |bytes| == if n < |c.out| then n else |c.out|
  {
    hide Keyspace.Valid;
    hide Keyspace.State;
    bytes := Drain(conns[j], n);
  }

  // ---------------------------------------------------------------- the loop

  ghost function Mems(conns: seq<Conn>): set<object>
    reads Parts(conns)
  {
    (set c: Conn | c in conns :: c.incoming.mem as object) + (set c: Conn | c in conns :: c.outgoing.mem as object)
  }

  /** A connection as it looks from outside, where `sent` has already been received. */
  ghost function Behind(sent: seq<Byte>, c: Seen): Seen {
    c.(out := sent + c.out)
  }

  /** How far the loop has come: `t` is a run of the server that has done exactly what the inputs ask,
      the server runs unless it has been told to stop, and every connection is in step. */
  ghost predicate LoopOn(lib: Library, s0: State, t: seq<Tagged>, s: State, running: bool, inputs: seq<Input>,
                         views: seq<Seen>) {
    && Runs.IsRun(lib, s0, Moments(t)) && Runs.Before(s0, Moments(t), |t|) == s
    && Jobs(t) == Schedule(inputs) && (running <==> !Told(Schedule(inputs)))
    && forall k :: 0 <= k < |views| ==> InStep(views[k], Stream(inputs, k), On(t, k))
  }

  lemma OneInput(inputs: seq<Input>, i: nat, k: nat)
    requires i < |inputs|
    ensures Stream(inputs[..i + 1], k) ==
            Stream(inputs[..i], k) + if inputs[i].Arrives? && inputs[i].conn == k then inputs[i].buf else []
  {
    assert inputs[..i + 1][..i] == inputs[..i];
  }

  lemma NoRequests(lib: Library, s: State, clock: nat -> nat)
    ensures Run(lib, s, [], clock) && StateAt(s, [], 0) == s && !ToldToStop([]) && Requests([]) == []
  {
  }

  /** What a read served is what its bytes complete. */
  lemma ServedIsScheduled(inputs: seq<Input>, i: nat, c: Seen, sofar: seq<Served>, served: seq<Served>)
    requires i < |inputs| && inputs[i].Arrives? && InStep(c, Stream(inputs[..i], inputs[i].conn), sofar)
    requires if c.close then served == [] else Requests(served) == Decode(c.inc + inputs[i].buf).cmds
    ensures JobsOn(inputs[i].conn, Requests(served), inputs[i].clock) == JobsOf(inputs[..i], inputs[i])
  {
    hide Decode;
    hide Sent;
    hide Fit;
    hide Stream;
  }

  lemma AfterRead(lib: Library, s0: State, t: seq<Tagged>, s: State, running: bool, running': bool,
                  inputs: seq<Input>, i: nat, views: seq<Seen>, views': seq<Seen>, served: seq<Served>)
    requires i < |inputs| && inputs[i].Arrives? && inputs[i].conn < |views| == |views'|
    requires LoopOn(lib, s0, t, s, running, inputs[..i], views)
    requires forall k :: 0 <= k < |views| && k != inputs[i].conn ==> views'[k] == views[k]
    requires Run(lib, s, served, inputs[i].clock) && running' == (running && !ToldToStop(served))
    requires var c, c' := views[inputs[i].conn], views'[inputs[i].conn];
             if c.close then c' == c && served == []
             else
               var d := Decode(c.inc + inputs[i].buf);
               && Requests(served) == d.cmds && c'.inc == d.rest && c'.close == d.closed
               && (Fit(served) ==> c'.out == c.out + Sent(served))
    ensures LoopOn(lib, s0, t + TagAll(inputs[i].conn, served, inputs[i].clock), StateAt(s, served, |served|),
                   running', inputs[..i + 1], views')
  {
    hide Decode;
    hide InStep;
    hide Run;
    hide Sent;
    hide Fit;
    hide Requests;
    hide On;
    hide Stream;
    hide Schedule;
    hide Told;
    hide ToldToStop;
    hide Jobs;
    hide JobsOn;
    hide JobsOf;
    hide Runs.IsRun;
    hide Runs.Before;
    hide StateAt;
    hide Moments;
    hide TagAll;
    var j, clock := inputs[i].conn, inputs[i].clock;
    RunAppended(lib, s0, t, j, served, clock);
    JobsAppended(t, j, served, clock);
    ServedIsScheduled(inputs, i, views[j], On(t, j), served);
    ScheduleNext(inputs, i);
    ToldConcat(Schedule(inputs[..i]), JobsOf(inputs[..i], inputs[i]));
    forall k | 0 <= k < |views|
      ensures InStep(views'[k], Stream(inputs[..i + 1], k), On(t + TagAll(j, served, clock), k))
    {
      OneInput(inputs, i, k);
      OnAppended(t, j, served, clock, k);
      if k == j {
        StepOn(views[k], views'[k], Stream(inputs[..i], k), On(t, k), inputs[i].buf, served);
      } else {
        assert Stream(inputs[..i], k) + [] == Stream(inputs[..i], k) && On(t, k) + [] == On(t, k);
      }
    }
  }

  lemma SameStreams(inputs: seq<Input>, i: nat, n: nat)
    requires i < |inputs| && !inputs[i].Arrives?
    ensures forall k :: 0 <= k < n ==> Stream(inputs[..i + 1], k) == Stream(inputs[..i], k)
  {
    forall k | 0 <= k < n ensures Stream(inputs[..i + 1], k) == Stream(inputs[..i], k) {
      OneInput(inputs, i, k);
      assert Stream(inputs[..i], k) + [] == Stream(inputs[..i], k);
    }
  }

  lemma AfterTick(lib: Library, s0: State, t: seq<Tagged>, s: State, running: bool, inputs: seq<Input>, i: nat,
                  views: seq<Seen>, removed: seq<Str>, s': State)
    requires i < |inputs| && inputs[i].RoundEnds?
    requires LoopOn(lib, s0, t, s, running, inputs[..i], views) && Ticked(s, inputs[i].now, removed, s')
    ensures LoopOn(lib, s0, t + [Ticks(inputs[i].now, s')], s', running, inputs[..i + 1], views)
  {
    hide InStep;
    hide Ticked;
    hide On;
    hide Stream;
    hide Schedule;
    hide Told;
    hide Runs.IsRun;
    hide Runs.Before;
    hide Moments;
    TickAppended(lib, s0, t, inputs[i].now, removed, s');
    ScheduleNext(inputs, i);
    NotTold(inputs[i].now);
    ToldConcat(Schedule(inputs[..i]), [Fires(inputs[i].now)]);
    assert Jobs(t + [Ticks(inputs[i].now, s')]) == Jobs(t) + [Fires(inputs[i].now)];
    SameStreams(inputs, i, |views|);
  }

  lemma NotTold(now: nat)
    ensures !Told([Fires(now)])
  {
  }

  lemma AfterDrain(lib: Library, s0: State, t: seq<Tagged>, s: State, running: bool, inputs: seq<Input>, i: nat,
                   views: seq<Seen>)
    requires i < |inputs| && inputs[i].Drains? && LoopOn(lib, s0, t, s, running, inputs[..i], views)
    ensures LoopOn(lib, s0, t, s, running, inputs[..i + 1], views)
  {
    hide InStep;
    hide On;
    hide Stream;
    hide Schedule;
    hide Told;
    hide Runs.IsRun;
    hide Runs.Before;
    hide Moments;
    ScheduleNext(inputs, i);
    assert Schedule(inputs[..i]) + [] == Schedule(inputs[..i]);
    SameStreams(inputs, i, |views|);
  }

  /** The server is lost on a request of the input with the number `i`: `t` is the part of the schedule
      before it, and the next job is the one it is lost on. */
  ghost predicate LostAt(lib: Library, s0: State, t: seq<Tagged>, inputs: seq<Input>, i: nat)
    requires i < |inputs|
  {
    var jobs := Schedule(inputs[..i + 1]);
    && Runs.IsRun(lib, s0, Moments(t))
    && |Schedule(inputs[..i])| <= |t| < |jobs| && Jobs(t) == jobs[..|t|] && jobs[|t|].Serves?
    && LostOn(lib, Runs.Before(s0, Moments(t), |t|), jobs[|t|].cmd, jobs[|t|].now)
  }

  lemma AfterLoss(lib: Library, s0: State, t: seq<Tagged>, s: State, running: bool, inputs: seq<Input>, i: nat,
                  views: seq<Seen>, served: seq<Served>)
    requires i < |inputs| && inputs[i].Arrives? && inputs[i].conn < |views| && !views[inputs[i].conn].close
    requires LoopOn(lib, s0, t, s, running, inputs[..i], views) && Run(lib, s, served, inputs[i].clock)
    requires var cmds := Decode(views[inputs[i].conn].inc + inputs[i].buf).cmds;
             && |served| < |cmds| && Requests(served) == cmds[..|served|]
             && LostOn(lib, StateAt(s, served, |served|), cmds[|served|], inputs[i].clock(|served|))
    ensures LostAt(lib, s0, t + TagAll(inputs[i].conn, served, inputs[i].clock), inputs, i)
  {
    hide Decode;
    hide Run;
    hide Requests;
    hide On;
    hide Stream;
    hide Schedule;
    hide Told;
    hide ToldToStop;
    hide Jobs;
    hide Runs.IsRun;
    hide Runs.Before;
    hide LostOn;
    hide StateAt;
    hide Moments;
    hide TagAll;
    var j, clock := inputs[i].conn, inputs[i].clock;
    RunAppended(lib, s0, t, j, served, clock);
    JobsAppended(t, j, served, clock);
    ScheduleNext(inputs, i);
    assert InStep(views[j], Stream(inputs[..i], j), On(t, j));
    var cmds := Completed(inputs[..i], j, inputs[i].buf);
    assert cmds == Decode(views[j].inc + inputs[i].buf).cmds;
    assert JobsOn(j, cmds[..|served|], clock) == JobsOn(j, cmds, clock)[..|served|];
  }

  /** The invariant of the loop, after the inputs `done`; `sent` has been taken from the connections. */
  ghost predicate Going(srv: Server, conns: seq<Conn>, sent: seq<seq<Byte>>, s0: State, t: seq<Tagged>,
                        done: seq<Input>)
    reads srv, srv.ks, srv.ks.Repr, Parts(conns), Mems(conns)
  {
    && AllReady(srv, conns) && |sent| == |conns|
    && Runs.IsRun(srv.lib, s0, Moments(t)) && Runs.Before(s0, Moments(t), |t|) == srv.ks.State()
    && Jobs(t) == Schedule(done) && (srv.is_running <==> !Told(Schedule(done)))
    && forall k :: 0 <= k < |conns| ==> InStep(Behind(sent[k], View(conns[k])), Stream(done, k), On(t, k))
  }

  lemma GoingOn(srv: Server, conns: seq<Conn>, sent: seq<seq<Byte>>, s0: State, t: seq<Tagged>, done: seq<Input>)
    returns (views: seq<Seen>)
    requires Going(srv, conns, sent, s0, t, done)
    ensures AllReady(srv, conns) && |views| == |conns| == |sent|
    ensures forall k :: 0 <= k < |conns| ==> views[k] == Behind(sent[k], View(conns[k]))
    ensures LoopOn(srv.lib, s0, t, srv.ks.State(), srv.is_running, done, views)
  {
    hide InStep;
    hide Schedule;
    hide Told;
    hide Runs.IsRun;
    hide Keyspace.State;
    hide Keyspace.Valid;
    views := [];
    while |views| < |conns|
      invariant |views| <= |conns| && forall k :: 0 <= k < |views| ==> views[k] == Behind(sent[k], View(conns[k]))
    {
      views := views + [Behind(sent[|views|], View(conns[|views|]))];
    }
  }

  lemma StillGoing(srv: Server, conns: seq<Conn>, sent: seq<seq<Byte>>, s0: State, t: seq<Tagged>, done: seq<Input>,
                   views: seq<Seen>)
    requires AllReady(srv, conns) && |views| == |conns| == |sent|
    requires forall k :: 0 <= k < |conns| ==> views[k] == Behind(sent[k], View(conns[k]))
    requires LoopOn(srv.lib, s0, t, srv.ks.State(), srv.is_running, done, views)
    ensures Going(srv, conns, sent, s0, t, done)
  {
    hide InStep;
    hide Schedule;
    hide Told;
    hide Runs.IsRun;
    hide Keyspace.State;
    hide Keyspace.Valid;
  }

  lemma GoingReady(srv: Server, conns: seq<Conn>, sent: seq<seq<Byte>>, s0: State, t: seq<Tagged>, done: seq<Input>)
    requires Going(srv, conns, sent, s0, t, done)
    ensures AllReady(srv, conns) && |sent| == |conns| && srv.ks.Valid()
    ensures Jobs(t) == Schedule(done) && (srv.is_running <==> !Told(Schedule(done)))
  {
    hide InStep;
    hide Schedule;
    hide Told;
    hide Runs.IsRun;
    hide Keyspace.State;
    hide Keyspace.Valid;
  }

  /** One input that is bytes: the requests they complete are served, at their times, on top of the
      trace, or all before the one the server is lost on. */
  method Arrival(srv: Server, conns: seq<Conn>, sent: seq<seq<Byte>>, ghost s0: State, ghost t: seq<Tagged>,
                 inputs: seq<Input>, i: nat)
    returns (lost: bool, ghost served: seq<Served>)
    requires i < |inputs| && inputs[i].Arrives? && inputs[i].conn < |conns|
    requires Going(srv, conns, sent, s0, t, inputs[..i])
    modifies srv`is_running, srv.ks.Repr, conns[inputs[i].conn]
    modifies conns[inputs[i].conn].incoming, conns[inputs[i].conn].incoming.mem
    modifies conns[inputs[i].conn].outgoing, conns[inputs[i].conn].outgoing.mem
    ensures fresh(srv.ks.Repr - old(srv.ks.Repr))
    ensures forall k :: 0 <= k < |conns| ==>
              conns[k].incoming.mem == old(conns[k].incoming.mem) || fresh(conns[k].incoming.mem)
    ensures forall k :: 0 <= k < |conns| ==>
              conns[k].outgoing.mem == old(conns[k].outgoing.mem) || fresh(conns[k].outgoing.mem)
    ensures var t' := t + TagAll(inputs[i].conn, served, inputs[i].clock);
            if lost then LostAt(srv.lib, s0, t', inputs, i)
            else Going(srv, conns, sent, s0, t', inputs[..i + 1])
  {
    hide Keyspace.Valid;
    hide Keyspace.State;
    hide Decode;
    hide InStep;
    hide LoopOn;
    hide Going;
    hide LostOn;
    hide LostAt;
    hide Run;
    hide Requests;
    hide StateAt;
    hide Fit;
    hide Sent;
    hide ToldToStop;
    hide Moments;
    hide On;
    hide Stream;
    hide TagAll;
    var j, buf, clock := inputs[i].conn, inputs[i].buf, inputs[i].clock;
    ghost var views := GoingOn(srv, conns, sent, s0, t, inputs[..i]);
    ghost var before, s, running := views, srv.ks.State(), srv.is_running;
    NoRequests(srv.lib, s, clock);
    lost, served := false, [];
    if !conns[j].want_close {
      lost, served := ReadFrom(srv, conns, j, buf, clock);
      if lost {
        AfterLoss(srv.lib, s0, t, s, running, inputs, i, before, served);
        return;
      }
      Queued(sent[j], before[j].out[|sent[j]|..], View(conns[j]).out, served);
      views := views[j := Behind(sent[j], View(conns[j]))];
    }
    AfterRead(srv.lib, s0, t, s, running, srv.is_running, inputs, i, before, views, served);
    StillGoing(srv, conns, sent, s0, t + TagAll(j, served, clock), inputs[..i + 1], views);
  }

  lemma Queued(sent: seq<Byte>, before: seq<Byte>, after: seq<Byte>, served: seq<Served>)
    requires Fit(served) ==> after == before + Sent(served)
    ensures Fit(served) ==> sent + after == sent + before + Sent(served)
  {
    assert sent + (before + Sent(served)) == sent + before + Sent(served);
  }

  /** One input that ends a round: the timers are run at its time. */
  method Tick(srv: Server, conns: seq<Conn>, sent: seq<seq<Byte>>, ghost s0: State, ghost t: seq<Tagged>,
              inputs: seq<Input>, i: nat)
    requires i < |inputs| && inputs[i].RoundEnds?
    requires Going(srv, conns, sent, s0, t, inputs[..i])
    modifies srv.ks.Repr
    ensures srv.ks.Repr == old(srv.ks.Repr) && srv.ks.Valid()
    ensures Going(srv, conns, sent, s0, t + [Ticks(inputs[i].now, srv.ks.State())], inputs[..i + 1])
  {
    hide Keyspace.Valid;
    hide Keyspace.State;
    hide Going;
    hide LoopOn;
    hide Ticked;
    hide InStep;
    hide Stream;
    hide Moments;
    ghost var views := GoingOn(srv, conns, sent, s0, t, inputs[..i]);
    ghost var s := srv.ks.State();
    ghost var removed := RunTimers(srv, conns, inputs[i].now);
    AfterTick(srv.lib, s0, t, s, srv.is_running, inputs, i, views, removed, srv.ks.State());
    StillGoing(srv, conns, sent, s0, t + [Ticks(inputs[i].now, srv.ks.State())], inputs[..i + 1], views);
  }

  /** Bytes that have been taken stand with those that were taken before. */
  lemma Passed(sent: seq<Byte>, bytes: seq<Byte>, c: Seen, c': Seen)
    requires c' == c.(out := c'.out) && bytes + c'.out == c.out
    ensures Behind(sent + bytes, c') == Behind(sent, c) && bytes == c.out[..|bytes|]
  {
    assert sent + bytes + c'.out == sent + (bytes + c'.out);
  }

  /** One input that is room: queued bytes are taken, from the front and as many as it says. */
  method Departure(srv: Server, conns: seq<Conn>, sent: seq<seq<Byte>>, ghost s0: State, ghost t: seq<Tagged>,
                   inputs: seq<Input>, i: nat)
    returns (sent': seq<seq<Byte>>)
    requires i < |inputs| && inputs[i].Drains? && inputs[i].conn < |conns|
    requires Going(srv, conns, sent, s0, t, inputs[..i]) && conns[inputs[i].conn].Valid() && |sent| == |conns|
    modifies conns[inputs[i].conn].outgoing`data_begin, conns[inputs[i].conn].outgoing`data_length
    ensures Going(srv, conns, sent', s0, t, inputs[..i + 1])
    ensures var j, queued := inputs[i].conn, old(View(conns[inputs[i].conn]).out);
            sent' == sent[j := sent[j] + queued[..if inputs[i].n < |queued| then inputs[i].n else |queued|]]
  {
    hide Keyspace.Valid;
    hide Keyspace.State;
    hide Going;
    hide LoopOn;
    hide InStep;
    hide Stream;
    hide Moments;
    hide View;
    hide Behind;
    hide Separate;
    var j := inputs[i].conn;
    ghost var views := GoingOn(srv, conns, sent, s0, t, inputs[..i]);
    ghost var before := View(conns[j]);
    var bytes := SendFrom(srv, conns, j, inputs[i].n);
    Passed(sent[j], bytes, before, View(conns[j]));
    sent' := sent[j := sent[j] + bytes];
    AfterDrain(srv.lib, s0, t, srv.ks.State(), srv.is_running, inputs, i, views);
    StillGoing(srv, conns, sent', s0, t, inputs[..i + 1], views);
  }

  lemma StartsGoing(srv: Server, conns: seq<Conn>, sent: seq<seq<Byte>>)
    requires AllReady(srv, conns) && srv.is_running && |sent| == |conns|
    requires forall k :: 0 <= k < |conns| ==> View(conns[k]) == Seen([], [], false) && sent[k] == []
    ensures Going(srv, conns, sent, srv.ks.State(), [], [])
  {
    NothingYet();
    hide InStep;
    hide Keyspace.State;
    hide Keyspace.Valid;
    forall k | 0 <= k < |conns| ensures Behind(sent[k], View(conns[k])) == Seen([], [], false) {
    }
  }

  /** One input, whatever it is. */
  method Turn(srv: Server, conns: seq<Conn>, sent: seq<seq<Byte>>, ghost s0: State, ghost t: seq<Tagged>,
              inputs: seq<Input>, i: nat)
    returns (lost: bool, sent': seq<seq<Byte>>, ghost t': seq<Tagged>)
    requires i < |inputs| && Going(srv, conns, sent, s0, t, inputs[..i])
    requires !inputs[i].RoundEnds? ==> inputs[i].conn < |conns|
    modifies srv`is_running, srv.ks.Repr, Parts(conns), Mems(conns)
    ensures fresh(srv.ks.Repr - old(srv.ks.Repr))
    ensures forall k :: 0 <= k < |conns| ==>
              conns[k].incoming.mem == old(conns[k].incoming.mem) || fresh(conns[k].incoming.mem)
    ensures forall k :: 0 <= k < |conns| ==>
              conns[k].outgoing.mem == old(conns[k].outgoing.mem) || fresh(conns[k].outgoing.mem)
    ensures if lost then LostAt(srv.lib, s0, t', inputs, i)
            else Going(srv, conns, sent', s0, t', inputs[..i + 1])
  {
    hide Keyspace.Valid;
    hide Keyspace.State;
    hide Going;
    hide LostAt;
    hide Moments;
    hide Schedule;
    hide Told;
    hide Jobs;
    hide TagAll;
    GoingReady(srv, conns, sent, s0, t, inputs[..i]);
    lost, sent', t' := false, sent, t;
    match inputs[i]
    case RoundEnds(now) =>
      Tick(srv, conns, sent, s0, t, inputs, i);
      t' := t + [Ticks(now, srv.ks.State())];
    case Arrives(j, _, clock) =>
      assert conns[j] in conns;
      ghost var served;
      lost, served := Arrival(srv, conns, sent, s0, t, inputs, i);
      t' := t + TagAll(j, served, clock);
    case Drains(j, _) =>
      assert conns[j] in conns;
      sent' := Departure(srv, conns, sent, s0, t, inputs, i);
  }

  lemma StopsAfter(inputs: seq<Input>, i: nat)
    requires i < |inputs|
    ensures Stops(inputs, i + 1) <==> inputs[i].RoundEnds? && Told(Schedule(inputs[..i + 1]))
  {
  }

  /** Serves the inputs in their order until, at the end of a round, the server has been told to stop,
      or until it is lost. The trace `t` is a run of the abstract server that does exactly what the
      inputs ask, in order and at their times; in whatever order the pieces of the streams arrive, each
      connection is served exactly the requests in its own stream; and what has been sent and what is
      queued are together its responses, in their order. */
  method MainLoop(srv: Server, conns: seq<Conn>, inputs: seq<Input>)
    returns (lost: bool, done: nat, sent: seq<seq<Byte>>, ghost t: seq<Tagged>)
    requires AllReady(srv, conns) && srv.is_running
    requires forall k :: 0 <= k < |conns| ==> View(conns[k]) == Seen([], [], false)
    requires forall e :: e in inputs && !e.RoundEnds? ==> e.conn < |conns|
    modifies srv`is_running, srv.ks.Repr, Parts(conns), Mems(conns)
    ensures done <= |inputs| && forall i :: 0 <= i < done ==> !Stops(inputs, i)
    ensures if lost then
              done < |inputs| && !Stops(inputs, done) && LostAt(srv.lib, old(srv.ks.State()), t, inputs, done)
            else
              && Going(srv, conns, sent, old(srv.ks.State()), t, inputs[..done])
              && (done == |inputs| || Stops(inputs, done))
    ensures Runs.AllSendable(Moments(t))
  {
    hide Keyspace.Valid;
    hide Keyspace.State;
    hide Going;
    hide LostAt;
    hide InStep;
    hide Moments;
    hide Schedule;
    hide Told;
    hide TagAll;
    assert !Stops(inputs, 0);
    hide Stops;
    ghost var s0 := srv.ks.State();
    lost, done, t := false, 0, [];
    sent := seq(|conns|, _ => []);
    StartsGoing(srv, conns, sent);
    assert inputs[..0] == [];
    var running := true;
    while done < |inputs| && running
      invariant done <= |inputs| && forall i :: 0 <= i < done ==> !Stops(inputs, i)
      invariant running <==> !Stops(inputs, done)
      invariant Going(srv, conns, sent, s0, t, inputs[..done]) && fresh(srv.ks.Repr - old(srv.ks.Repr))
      invariant forall k :: 0 <= k < |conns| ==>
                  conns[k].incoming.mem == old(conns[k].incoming.mem) || fresh(conns[k].incoming.mem)
      invariant forall k :: 0 <= k < |conns| ==>
                  conns[k].outgoing.mem == old(conns[k].outgoing.mem) || fresh(conns[k].outgoing.mem)
      decreases |inputs| - done
    {
      assert inputs[done] in inputs;
      lost, sent, t := Turn(srv, conns, sent, s0, t, inputs, done);
      if lost {
        LostIsSendable(srv.lib, s0, t, inputs, done);
        return;
      }
      GoingReady(srv, conns, sent, s0, t, inputs[..done + 1]);
      StopsAfter(inputs, done);
      if inputs[done].RoundEnds? {
        running := srv.is_running;
      }
      done := done + 1;
    }
    GoingReady(srv, conns, sent, s0, t, inputs[..done]);
    TraceIsSendable(t, inputs[..done]);
  }

  lemma LostIsSendable(lib: Library, s0: State, t: seq<Tagged>, inputs: seq<Input>, i: nat)
    requires i < |inputs| && LostAt(lib, s0, t, inputs, i)
    ensures Runs.AllSendable(Moments(t)) && Sendable(Schedule(inputs[..i + 1])[|t|].cmd)
  {
    hide Schedule;
    hide Sendable;
    hide LostOn;
    TraceIsSendable(t, inputs[..i + 1]);
    ScheduleIsSendable(inputs[..i + 1]);
  }

  /** A request may have a reply that does not fit a message. */
  ghost predicate TooLong(lib: Library, s: State, cmd: seq<Str>, now: nat) {
    exists r, s' :: Step(lib, s, cmd, now, Replied(r), s') && |Encode(r)| > MAX_MSG
  }

  /** A server that started empty is lost only on one of the fatal requests, or on one whose reply does
      not fit; and on none that it has served. */
  lemma LossHasACause(lib: Library, t: seq<Tagged>, inputs: seq<Input>, i: nat)
    requires i < |inputs| && LostAt(lib, map[], t, inputs, i)
    ensures var s, job := Runs.Before(map[], Moments(t), |t|), Schedule(inputs[..i + 1])[|t|];
            Runs.Fatal(lib, s, job.cmd) || TooLong(lib, s, job.cmd, job.now)
  {
    hide Step;
    hide Encode;
    hide Schedule;
    hide Runs.Fatal;
    hide Runs.StringsFit;
    LostIsSendable(lib, map[], t, inputs, i);
    Runs.RunKeepsStringsFit(lib, Moments(t), |t|);
    var s, job := Runs.Before(map[], Moments(t), |t|), Schedule(inputs[..i + 1])[|t|];
    var o, s' :| Step(lib, s, job.cmd, job.now, o, s') && (o.Crashed? || |Encode(o.reply)| > MAX_MSG);
    Runs.CrashStep(lib, s, job.cmd, job.now, o, s');
    if o.Replied? {
      assert Step(lib, s, job.cmd, job.now, Replied(o.reply), s') && |Encode(o.reply)| > MAX_MSG;
    }
  }

  /** No request that a trace has served was fatal: with a fatal request in the schedule the server is
      lost there at the latest. */
  lemma ServedIsNotFatal(lib: Library, t: seq<Tagged>, i: nat)
    requires Runs.IsRun(lib, map[], Moments(t)) && Runs.AllSendable(Moments(t)) && i < |t| && t[i].OnConn?
    ensures !Runs.Fatal(lib, Runs.Before(map[], Moments(t), i), t[i].served.cmd)
  {
    hide Runs.IsRun;
    hide Runs.AllSendable;
    hide Runs.Fatal;
    Runs.OnlyFatalRequestsCrash(lib, Moments(t), i);
  }
}
