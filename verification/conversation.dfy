/** A client and the server together: what is sent in requests comes back in responses, and the bytes
    of some of them. */
module Conversations {
  import opened Bytes
  import opened Codec
  import opened Spec
  import opened Commands
  import opened Framing
  import opened Connections
  import opened Client
  import opened Answers
  import MainLoops
  import Runs

  ghost function Replies(served: seq<Served>): seq<Reply> {
    seq(|served|, i requires 0 <= i < |served| => served[i].reply)
  }

  /** Every response fits a message, and is one that the client can show. */
  ghost predicate Hearable(served: seq<Served>) {
    forall i :: 0 <= i < |served| ==> |Encode(served[i].reply)| <= MAX_MSG && Servable(served[i].reply)
  }

  lemma HearsOne(r: Reply, rest: seq<Byte>)
    requires Servable(r) && |Encode(r)| <= MAX_MSG
    ensures Hear(Response(r) + rest).Message? && Hear(Response(r) + rest).rest == rest
    ensures Hear(Response(r) + rest).shown.Shown? && Hear(Response(r) + rest).shown.value == r
  {
    hide Encode;
    hide Show;
    hide LE;
    hide FromLE;
    hide Servable;
    hide Plain;
    var e, stream := Encode(r), Response(r) + rest;
    SmallLE(|e|);
    assert stream[..4] == LE(|e|, 4) && stream[4..4 + |e|] == e && stream[4 + |e|..] == rest;
    ClientShows(r, []);
    assert e + [] == e;
  }

  /** `a`, and behind it what is said of the rest. */
  lemma {:induction false} HearsMore(a: seq<Served>, rest: seq<Byte>, n: nat)
    requires Hearable(a)
    ensures HearAll(Sent(a) + rest, |a| + n) ==
            match HearAll(rest, n)
            case Some(rs) => Some(Replies(a) + rs)
            case None => None
    decreases |a|
  {
    hide Encode;
    hide Hear;
    hide Response;
    hide Servable;
    if a == [] {
      assert Sent(a) + rest == rest;
      match HearAll(rest, n)
      case Some(rs) => assert Replies(a) + rs == rs;
      case None =>
    } else {
      var m := |a| - 1;
      var r := a[m].reply;
      HearsMore(a[..m], Response(r) + rest, n + 1);
      HearsOne(r, rest);
      assert Sent(a) + rest == Sent(a[..m]) + (Response(r) + rest);
      match HearAll(rest, n)
      case Some(rs) => assert Replies(a[..m]) + ([r] + rs) == Replies(a) + rs;
      case None =>
    }
  }

  /** From the bytes of the responses the client hears each reply, in order, and nothing else. */
  lemma HearsAll(served: seq<Served>)
    requires Hearable(served)
    ensures HearAll(Sent(served), |served|) == Some(Replies(served))
  {
    hide *;
    HearsNothing();
    HearsMore(served, [], 0);
    assert Sent(served) + [] == Sent(served) && Replies(served) + [] == Replies(served);
  }

  lemma HearsNothing()
    ensures HearAll([], 0) == Some([])
  {
  }

  /** A client has sent the frames of `cmds` on its connection and has taken all the bytes that have come
      back: it hears one reply to each of its requests, in their order, whatever pieces the bytes came
      in and whatever other clients did. */
  lemma EachIsAnswered(c: MainLoops.Seen, cmds: seq<seq<Str>>, served: seq<Served>)
    requires forall cmd :: cmd in cmds ==> Sendable(cmd)
    requires MainLoops.InStep(c, Frames(cmds), served) && Hearable(served)
    ensures Requests(served) == cmds && !c.close && HearAll(c.out, |cmds|) == Some(Replies(served))
  {
    hide Sendable;
    hide Encode;
    hide Sent;
    hide Servable;
    hide HearAll;
    FramesAreDecoded(cmds, []);
    assert Frames(cmds) + [] == Frames(cmds);
    assert |Requests(served)| == |served|;
    HearsAll(served);
    forall v | v in served ensures |Encode(v.reply)| <= MAX_MSG {
      var i :| 0 <= i < |served| && served[i] == v;
    }
  }

  // ---------------------------------------------------------------- byte by byte

  lemma LowFirst(n: nat, k: nat)
    requires k > 0
    ensures LE(n, k) == [n % 256] + LE(n / 256, k - 1) && LE(n, 0) == []
  {
  }

  lemma {:induction false} Zeros(k: nat)
    ensures LE(0, k) == seq(k, _ => 0)
  {
    if k > 0 {
      Zeros(k - 1);
    }
  }

  lemma SmallLength(n: nat)
    requires n < 256
    ensures LE(n, 4) == [n, 0, 0, 0] && LE(n, 8) == [n, 0, 0, 0, 0, 0, 0, 0]
  {
    hide LE;
    LowFirst(n, 4);
    LowFirst(n, 8);
    Zeros(3);
    Zeros(7);
  }

  /** The bytes of a nil and of a double. */
  lemma ReplyBytes(d: Double)
    ensures Encode(Nil) == [0] && Encode(Dbl(d)) == [4] + d
  {
    hide LE;
  }

  /** A small integer has its value in the first of eight bytes. */
  lemma IntBytes(v: Byte)
    ensures Encode(Int(v)) == [3] + [v, 0, 0, 0, 0, 0, 0, 0]
  {
    assert Wrap64(v) == v && Encode(Int(v)) == [3] + LE(Wrap64(v), 8);
    hide *;
    SmallLength(v);
  }

  /** The bytes of an error, and the codes of the others. */
  lemma ErrorBytes()
    ensures Encode(Err(ERR_NOT_FOUND, [103, 101, 116])) == [1, 1, 3, 0, 0, 0] + [103, 101, 116]
    ensures ERR_BAD_TYPE == 0 && ERR_OUT_OF_RANGE == 2 && ERR_UNEXPECTED == 3
  {
    hide LE;
    SmallLength(3);
  }

  lemma TextBytes(s: Str)
    requires |s| < 256
    ensures Encode(Text(s)) == [2, |s|, 0, 0, 0] + s
  {
    hide LE;
    SmallLength(|s|);
    assert [2, |s|, 0, 0, 0] == [2] + [|s|, 0, 0, 0];
  }

  /** The bytes of an array of a string and a nil. */
  lemma ArrayBytes()
    ensures Encode(Arr([Text([97, 98]), Nil])) == [5] + [2, 0, 0, 0] + (([2, 2, 0, 0, 0] + [97, 98]) + [0])
  {
    var two, one := [Text([97, 98]), Nil], [Nil];
    assert two[1..] == one && one[1..] == [] && Encode(Nil) == [0];
    assert Encode(Arr(two)) == [5] + LE(2, 4) + EncodeAll(two);
    assert EncodeAll(two) == Encode(Text([97, 98])) + EncodeAll(one);
    assert EncodeAll(one) == Encode(Nil) + EncodeAll([]) && EncodeAll([]) == [];
    assert EncodeAll(one) == [0];
    hide *;
    TextBytes([97, 98]);
    SmallLength(2);
  }

  /** Negative integers fill all eight bytes. */
  lemma MinusTwo()
    ensures Encode(Int(-2)) == [3, 254, 255, 255, 255, 255, 255, 255, 255]
  {
    var n := 0xffff_ffff_ffff_fffe;
    assert Wrap64(-2) == n && Encode(Int(-2)) == [3] + LE(Wrap64(-2), 8);
    hide *;
    LowFirst(n, 8);
    LowFirst(0xff_ffff_ffff_ffff, 7);
    LowFirst(0xffff_ffff_ffff, 6);
    LowFirst(0xff_ffff_ffff, 5);
    LowFirst(0xffff_ffff, 4);
    LowFirst(0xff_ffff, 3);
    LowFirst(0xffff, 2);
    LowFirst(0xff, 1);
  }

  lemma TwoWords(a: Str, b: Str)
    requires |a| < 256 && |b| < 256
    ensures EncodeReq([a, b]) == [2, 0, 0, 0] + ([2, |a|, 0, 0, 0] + a + ([2, |b|, 0, 0, 0] + b))
    ensures Sendable([a, b])
  {
    var w: seq<Str> := [a, b];
    assert w[1..] == [b] && [b][1..] == [];
    assert EncodeReq(w) == LE(2, 4) + EncodeWords(w);
    assert EncodeWords(w) == Encode(Text(a)) + EncodeWords([b]);
    assert EncodeWords([b]) == Encode(Text(b)) + EncodeWords([]) && EncodeWords([]) == [];
    hide LE;
    hide Encode;
    hide EncodeWords;
    TextBytes(a);
    TextBytes(b);
    SmallLength(2);
  }

  /** The frame of "get k" is decoded to its two words, whatever else has come behind it. */
  lemma RequestBytes(rest: seq<Byte>)
    ensures NextFrame([18, 0, 0, 0] + GetPayload() + rest) == Frame([[103, 101, 116], [107]], rest)
  {
    hide *;
    TwoWords([103, 101, 116], [107]);
    SmallLength(18);
    PayloadIs();
    FirstFrame([[103, 101, 116], [107]], rest);
  }

  function GetPayload(): seq<Byte> {
    [2, 0, 0, 0] + [2, 3, 0, 0, 0, 103, 101, 116] + [2, 1, 0, 0, 0, 107]
  }

  lemma PayloadIs()
    ensures GetPayload() == [2, 0, 0, 0] + ([2, 3, 0, 0, 0] + [103, 101, 116] + ([2, 1, 0, 0, 0] + [107]))
    ensures |GetPayload()| == 18
  {
  }

  /** That request to an empty server, and the bytes of its answer. */
  lemma GetConversation(lib: Library, now: nat, o: Outcome, s': State)
    requires Step(lib, map[], [[103, 101, 116], [107]], now, o, s')
    ensures s' == map[] && o.Replied? && Response(o.reply) == [9, 0, 0, 0] + ([1, 1, 3, 0, 0, 0] + [103, 101, 116])
  {
    hide Step;
    hide LE;
    hide Encode;
    assert Ascii("get") == [103, 101, 116];
    SmallGet();
    GetAnswers(lib, map[], [[103, 101, 116], [107]], now, o, s');
    ErrorBytes();
    SmallLength(9);
  }

  lemma SmallGet()
    ensures Asks([[103, 101, 116], [107]], "GET", 2)
  {
    assert Upper([103, 101, 116]) == [71, 69, 84] == Ascii("GET");
  }

  /** A word with another tag than that of a string closes the connection. */
  lemma BadRequestBytes()
    ensures Decode([5, 0, 0, 0] + ([1, 0, 0, 0] + [3])).closed
  {
    hide *;
    SmallLength(5);
    SmallLength(1);
    var payload := LE(1, 4) + [3 as Byte];
    NoWord(payload);
    SmallEnough();
    Unparsed(payload, LE(5, 4) + payload);
    DecodeFront(LE(5, 4) + payload);
  }

  lemma SmallEnough()
    ensures 5 <= MAX_MSG
  {
  }

  lemma NoWord(payload: seq<Byte>)
    requires payload == LE(1, 4) + [3 as Byte]
    ensures ParsePayload(payload) == None
  {
    hide LE;
    SmallLE(1);
    assert payload[..4] == LE(1, 4) && payload[4..] == [3];
    assert ReadWord([3]) == None;
  }

  lemma Unparsed(payload: seq<Byte>, buf: seq<Byte>)
    requires |payload| <= MAX_MSG && ParsePayload(payload) == None && buf == LE(|payload|, 4) + payload
    ensures NextFrame(buf).Malformed?
  {
    hide LE;
    hide ParsePayload;
    SmallLE(|payload|);
    assert buf[..4] == LE(|payload|, 4) && buf[4..4 + |payload|] == payload;
  }

  /** The longest request of one word, and the greatest number of words. */
  lemma RequestLimits(word: Str, n: nat)
    ensures Sendable([word]) <==> |word| <= 1048567
    ensures Sendable(seq(n, _ => [])) <==> n <= 500
  {
    Runs.RequestLength([word]);
    var none: seq<Str> := seq(n, _ => []);
    Runs.RequestLength(none);
    NoLetters(none);
  }

  lemma {:induction false} NoLetters(ws: seq<Str>)
    requires forall i :: 0 <= i < |ws| ==> ws[i] == []
    ensures Runs.Total(ws) == 0
  {
    if ws != [] {
      NoLetters(ws[1..]);
    }
  }
}
