/** The framing of the byte streams (server/MRD_server.cpp:222-249, 267-290): four bytes of length in
    front of each request and of each response. */
module Framing {
  import opened Bytes
  import opened Codec

  // ---------------------------------------------------------------- requests

  /** What stands at the front of the received bytes. */
  datatype Front = NeedMore | Malformed | Frame(cmd: seq<Str>, rest: seq<Byte>)

  function NextFrame(buf: seq<Byte>): (f: Front)
    ensures f.Frame? ==> |f.rest| < |buf|
  {
    if |buf| < 4 then NeedMore
    else
      var len := FromLE(buf[..4]);
      if len > MAX_MSG then Malformed
      else if 4 + len > |buf| then NeedMore
      else
        match ParsePayload(buf[4..4 + len])
        case None => Malformed
        case Some(cmd) => Frame(cmd, buf[4 + len..])
  }

  /** All that can be taken from the received bytes: commands, up to the first malformed or oversized
      frame, and the bytes that are left. */
  datatype Decoded = Decoded(cmds: seq<seq<Str>>, rest: seq<Byte>, closed: bool)

  function Decode(buf: seq<Byte>): Decoded
    decreases |buf|
  {
    match NextFrame(buf)
    case NeedMore => Decoded([], buf, false)
    case Malformed => Decoded([], buf, true)
    case Frame(cmd, rest) => var d := Decode(rest); Decoded([cmd] + d.cmds, d.rest, d.closed)
  }

  lemma DecodeFront(buf: seq<Byte>)
    ensures Decode(buf) == match NextFrame(buf)
                           case NeedMore => Decoded([], buf, false)
                           case Malformed => Decoded([], buf, true)
                           case Frame(cmd, rest) =>
                             Decoded([cmd] + Decode(rest).cmds, Decode(rest).rest, Decode(rest).closed)
  {
  }

  /** Later bytes do not change what has been decided. */
  lemma FrontStays(a: seq<Byte>, b: seq<Byte>)
    ensures NextFrame(a).Malformed? ==> NextFrame(a + b).Malformed?
    ensures NextFrame(a).Frame? ==> NextFrame(a + b) == Frame(NextFrame(a).cmd, NextFrame(a).rest + b)
  {
    if |a| >= 4 {
      assert (a + b)[..4] == a[..4];
      var len := FromLE(a[..4]);
      if 4 + len <= |a| {
        assert (a + b)[4..4 + len] == a[4..4 + len];
        assert (a + b)[4 + len..] == a[4 + len..] + b;
      }
    }
  }

  /** Bytes that arrive later are decoded together with what was left, as if all had come at once. */
  lemma {:induction false} DecodeLater(a: seq<Byte>, b: seq<Byte>)
    ensures var d, all := Decode(a), Decode(a + b);
            if d.closed then all.closed && all.cmds == d.cmds
            else
              var later := Decode(d.rest + b);
              all == Decoded(d.cmds + later.cmds, later.rest, later.closed)
    decreases |a|
  {
    hide *;
    FrontStays(a, b);
    DecodeFront(a);
    DecodeFront(a + b);
    match NextFrame(a)
    case NeedMore =>
      var d := Decode(a + b);
      assert [] + d.cmds == d.cmds;
    case Malformed =>
    case Frame(cmd, rest) =>
      DecodeLater(rest, b);
      var d := Decode(rest);
      if !d.closed {
        var later := Decode(d.rest + b);
        assert [cmd] + (d.cmds + later.cmds) == ([cmd] + d.cmds) + later.cmds;
      }
  }

  // ---------------------------------------------------------------- a connection

  /** A connection between two reads; `closed` after a malformed frame, when nothing more is read. */
  datatype Session<S> = Session(pending: seq<Byte>, closed: bool, cmds: seq<seq<Str>>, state: S, sent: seq<Byte>)

  /** A response: its length and the encoded reply. */
  function Response(r: Reply): seq<Byte> {
    LE(|Encode(r)|, 4) + Encode(r)
  }

  /** Runs commands one after another: the last state and all the responses. */
  function Respond<S>(step: (S, seq<Str>) -> (S, Reply), s: S, cmds: seq<seq<Str>>): (S, seq<Byte>) {
    if cmds == [] then (s, [])
    else
      var (s', r) := step(s, cmds[0]);
      var (s'', later) := Respond(step, s', cmds[1..]);
      (s'', Response(r) + later)
  }

  lemma {:induction false} RespondLater<S>(step: (S, seq<Str>) -> (S, Reply), s: S, a: seq<seq<Str>>, b: seq<seq<Str>>)
    ensures var (s', x) := Respond(step, s, a);
            var (s'', y) := Respond(step, s', b);
            Respond(step, s, a + b) == (s'', x + y)
  {
    if a == [] {
      assert a + b == b;
      var (s', y) := Respond(step, s, b);
      assert [] + y == y;
    } else {
      assert (a + b)[1..] == a[1..] + b && (a + b)[0] == a[0];
      var (s1, r) := step(s, a[0]);
      RespondLater(step, s1, a[1..], b);
      var (s', x) := Respond(step, s1, a[1..]);
      var (s'', y) := Respond(step, s', b);
      assert Response(r) + (x + y) == (Response(r) + x) + y;
    }
  }

  /** One read: the chunk is appended, and every complete request is served. */
  function Receive<S>(step: (S, seq<Str>) -> (S, Reply), c: Session<S>, chunk: seq<Byte>): Session<S> {
    if c.closed then c
    else
      var d := Decode(c.pending + chunk);
      var (s, out) := Respond(step, c.state, d.cmds);
      Session(d.rest, d.closed, c.cmds + d.cmds, s, c.sent + out)
  }

  function ReceiveAll<S>(step: (S, seq<Str>) -> (S, Reply), c: Session<S>, chunks: seq<seq<Byte>>): Session<S>
    decreases |chunks|
  {
    if chunks == [] then c else ReceiveAll(step, Receive(step, c, chunks[0]), chunks[1..])
  }

  function Flat(chunks: seq<seq<Byte>>): seq<Byte> {
    if chunks == [] then [] else chunks[0] + Flat(chunks[1..])
  }

  /** The same for both: what was decoded, the state and the responses, and what is pending unless
      the connection is to be closed. */
  predicate Alike<S(==)>(c: Session<S>, d: Session<S>) {
    && c.closed == d.closed && c.cmds == d.cmds && c.state == d.state && c.sent == d.sent
    && (!c.closed ==> c.pending == d.pending)
  }

  /** Two reads in a row are one read of all the bytes. */
  lemma ReceiveTwice<S>(step: (S, seq<Str>) -> (S, Reply), c: Session<S>, a: seq<Byte>, b: seq<Byte>)
    ensures Alike(Receive(step, Receive(step, c, a), b), Receive(step, c, a + b))
  {
    hide Decode;
    hide Respond;
    if !c.closed {
      var d := Decode(c.pending + a);
      DecodeLater(c.pending + a, b);
      assert c.pending + a + b == c.pending + (a + b);
      if !d.closed {
        var later := Decode(d.rest + b);
        RespondLater(step, c.state, d.cmds, later.cmds);
        var (s', x) := Respond(step, c.state, d.cmds);
        var (s'', y) := Respond(step, s', later.cmds);
        assert c.cmds + d.cmds + later.cmds == c.cmds + (d.cmds + later.cmds);
        assert c.sent + x + y == c.sent + (x + y);
      }
    }
  }

  lemma AlikeStays<S>(step: (S, seq<Str>) -> (S, Reply), c: Session<S>, d: Session<S>, chunk: seq<Byte>)
    requires Alike(c, d)
    ensures Alike(Receive(step, c, chunk), Receive(step, d, chunk))
  {
  }

  lemma {:induction false} AlikeStaysAll<S>(step: (S, seq<Str>) -> (S, Reply), c: Session<S>, d: Session<S>,
                                            chunks: seq<seq<Byte>>)
    requires Alike(c, d)
    ensures Alike(ReceiveAll(step, c, chunks), ReceiveAll(step, d, chunks))
    decreases |chunks|
  {
    if chunks != [] {
      AlikeStays(step, c, d, chunks[0]);
      AlikeStaysAll(step, Receive(step, c, chunks[0]), Receive(step, d, chunks[0]), chunks[1..]);
    }
  }

  /** Any number of reads is one read of all the bytes. */
  lemma {:induction false} ReceiveFlat<S>(step: (S, seq<Str>) -> (S, Reply), c: Session<S>, first: seq<Byte>,
                                          chunks: seq<seq<Byte>>)
    ensures Alike(ReceiveAll(step, c, [first] + chunks), Receive(step, c, first + Flat(chunks)))
    decreases |chunks|
  {
    hide *;
    ReceiveFirst(step, c, first, chunks);
    FlatFirst(chunks);
    if chunks == [] {
      assert first + [] == first;
    } else {
      var a, b, later := first, chunks[0], chunks[1..];
      ReceiveTwice(step, c, a, b);
      AlikeStaysAll(step, Receive(step, Receive(step, c, a), b), Receive(step, c, a + b), later);
      assert [b] + later == chunks;
      ReceiveFirst(step, Receive(step, c, a), b, later);
      ReceiveFirst(step, c, a + b, later);
      ReceiveFlat(step, c, a + b, later);
      AlikeBoth(ReceiveAll(step, c, [first] + chunks), ReceiveAll(step, c, [a + b] + later),
                Receive(step, c, a + b + Flat(later)));
      assert a + (b + Flat(later)) == a + b + Flat(later);
    }
  }

  lemma ReceiveFirst<S>(step: (S, seq<Str>) -> (S, Reply), c: Session<S>, first: seq<Byte>, chunks: seq<seq<Byte>>)
    ensures ReceiveAll(step, c, [first] + chunks) == ReceiveAll(step, Receive(step, c, first), chunks)
    ensures chunks == [] ==> ReceiveAll(step, Receive(step, c, first), chunks) == Receive(step, c, first)
    ensures Alike(Receive(step, c, first), Receive(step, c, first))
  {
    assert ([first] + chunks)[1..] == chunks;
  }

  lemma FlatFirst(chunks: seq<seq<Byte>>)
    ensures Flat(chunks) == if chunks == [] then [] else chunks[0] + Flat(chunks[1..])
  {
  }

  lemma AlikeBoth<S>(c: Session<S>, d: Session<S>, e: Session<S>)
    requires Alike(c, d) && Alike(d, e)
    ensures Alike(c, e)
  {
  }

  /** However a byte stream is split into reads, the same commands are decoded, the same state is
      reached and the same bytes are sent. */
  lemma ChunkingDoesNotMatter<S>(step: (S, seq<Str>) -> (S, Reply), s: S, xs: seq<seq<Byte>>, ys: seq<seq<Byte>>)
    requires Flat(xs) == Flat(ys)
    ensures var c := Session([], false, [], s, []);
            Alike(ReceiveAll(step, c, xs), ReceiveAll(step, c, ys))
  {
    var c := Session([], false, [], s, []);
    ReceiveFlat(step, c, [], xs);
    ReceiveFlat(step, c, [], ys);
    EmptyRead(step, s, xs);
    EmptyRead(step, s, ys);
  }

  lemma EmptyRead<S>(step: (S, seq<Str>) -> (S, Reply), s: S, xs: seq<seq<Byte>>)
    ensures var c := Session([], false, [], s, []);
            ReceiveAll(step, c, [[]] + xs) == ReceiveAll(step, c, xs)
  {
    var c := Session([], false, [], s, []);
    assert ([[]] + xs)[1..] == xs;
    assert Decode([] + []) == Decoded([], [], false);
    assert Receive(step, c, []) == c;
  }

  // ---------------------------------------------------------------- the encoder's view

  /** Requests as the client frames them (client/client.cpp:16-30). */
  function Frames(cmds: seq<seq<Str>>): seq<Byte> {
    if cmds == [] then [] else LE(|EncodeReq(cmds[0])|, 4) + EncodeReq(cmds[0]) + Frames(cmds[1..])
  }

  predicate Sendable(cmd: seq<Str>) {
    |cmd| <= MAX_CMDS && |EncodeReq(cmd)| <= MAX_MSG
  }

  lemma FirstFrame(cmd: seq<Str>, rest: seq<Byte>)
    requires Sendable(cmd)
    ensures NextFrame(LE(|EncodeReq(cmd)|, 4) + EncodeReq(cmd) + rest) == Frame(cmd, rest)
  {
    var e := EncodeReq(cmd);
    var buf := LE(|e|, 4) + e + rest;
    SmallLE(|e|);
    assert buf[..4] == LE(|e|, 4);
    assert buf[4..4 + |e|] == e && buf[4 + |e|..] == rest;
    ParseInvertsEncode(e, cmd);
  }

  lemma FrameIsEncoded(buf: seq<Byte>)
    requires NextFrame(buf).Frame?
    ensures var f := NextFrame(buf);
            Sendable(f.cmd) && buf == LE(|EncodeReq(f.cmd)|, 4) + EncodeReq(f.cmd) + f.rest
  {
    var f := NextFrame(buf);
    LEOfFour(buf[..4]);
    var len := FromLE(buf[..4]);
    ParseInvertsEncode(buf[4..4 + len], f.cmd);
    assert buf == buf[..4] + buf[4..4 + len] + buf[4 + len..];
  }

  /** The server decodes what clients send, and whatever it decodes a client could have sent: the
      commands are the only ones whose frames make up the bytes before the rest. */
  lemma {:induction false} DecodeInvertsFrames(buf: seq<Byte>)
    ensures var d := Decode(buf);
            && buf == Frames(d.cmds) + d.rest && (forall cmd :: cmd in d.cmds ==> Sendable(cmd))
            && !NextFrame(d.rest).Frame? && (d.closed <==> NextFrame(d.rest).Malformed?)
    decreases |buf|
  {
    match NextFrame(buf)
    case NeedMore =>
    case Malformed =>
    case Frame(cmd, rest) =>
      FrameIsEncoded(buf);
      DecodeInvertsFrames(rest);
      var d := Decode(rest);
      assert ([cmd] + d.cmds)[1..] == d.cmds;
      assert LE(|EncodeReq(cmd)|, 4) + EncodeReq(cmd) + (Frames(d.cmds) + d.rest) ==
             (LE(|EncodeReq(cmd)|, 4) + EncodeReq(cmd) + Frames(d.cmds)) + d.rest;
  }

  lemma {:induction false} FramesAreDecoded(cmds: seq<seq<Str>>, rest: seq<Byte>)
    requires (forall cmd :: cmd in cmds ==> Sendable(cmd)) && !NextFrame(rest).Frame?
    ensures Decode(Frames(cmds) + rest) == Decoded(cmds, rest, NextFrame(rest).Malformed?)
  {
    hide NextFrame;
    hide Decode;
    hide LE;
    hide EncodeReq;
    hide Sendable;
    DecodeFront(rest);
    DecodeFront(Frames(cmds) + rest);
    if cmds == [] {
      assert Frames(cmds) + rest == rest;
    } else {
      var e := EncodeReq(cmds[0]);
      FirstFrame(cmds[0], Frames(cmds[1..]) + rest);
      assert Frames(cmds) + rest == LE(|e|, 4) + e + (Frames(cmds[1..]) + rest);
      FramesAreDecoded(cmds[1..], rest);
      assert [cmds[0]] + cmds[1..] == cmds;
    }
  }

  // ---------------------------------------------------------------- what closes a connection

  /** The bytes cannot begin a frame: the length is too large, or all of it has come and is the encoding
      of no list of at most MAX_CMDS words. */
  ghost predicate BadStart(buf: seq<Byte>) {
    |buf| >= 4 &&
    var len := FromLE(buf[..4]);
    || len > MAX_MSG
    || (4 + len <= |buf| && forall cmd: seq<Str> :: |cmd| <= MAX_CMDS ==> EncodeReq(cmd) != buf[4..4 + len])
  }

  /** The bytes are too few to say. */
  predicate ShortStart(buf: seq<Byte>) {
    |buf| < 4 || (FromLE(buf[..4]) <= MAX_MSG && |buf| < 4 + FromLE(buf[..4]))
  }

  lemma FrontIs(buf: seq<Byte>)
    ensures NextFrame(buf).Malformed? <==> BadStart(buf)
    ensures NextFrame(buf).NeedMore? <==> ShortStart(buf)
  {
    hide EncodeReq;
    hide ParsePayload;
    if |buf| >= 4 {
      var len := FromLE(buf[..4]);
      if len <= MAX_MSG && 4 + len <= |buf| {
        var payload := buf[4..4 + len];
        forall cmd: seq<Str>
          ensures ParsePayload(payload) == Some(cmd) <==> |cmd| <= MAX_CMDS && payload == EncodeReq(cmd)
        {
          ParseInvertsEncode(payload, cmd);
        }
        if ParsePayload(payload).Some? {
          assert ParsePayload(payload) == Some(ParsePayload(payload).value);
        }
      }
    }
  }

  /** Decoding ends with a connection that is to be closed exactly if the bytes that are left cannot
      begin a frame; otherwise they are the beginning of one that is not all there. */
  lemma ClosedMeansBad(buf: seq<Byte>)
    ensures Decode(buf).closed <==> BadStart(Decode(buf).rest)
    ensures !Decode(buf).closed <==> ShortStart(Decode(buf).rest)
  {
    hide *;
    DecodeInvertsFrames(buf);
    FrontIs(Decode(buf).rest);
  }
}
