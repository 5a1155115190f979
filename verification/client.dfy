/** What the client makes of a response (client/client.cpp:31-118). */
module Client {
  import opened Bytes
  import opened Codec
  import opened Spec

  /** The outcome of showing a response: refused, a read outside the message, or shown together with
      the number of bytes it is said to take. */
  datatype Shown<+T> = Refused | Stray | Shown(value: T, used: int)

  /** A length as the signed 32-bit integer that is returned. */
  function Int32(n: nat): (r: int)
    ensures n < 0x8000_0000 ==> r == n
    ensures -0x8000_0000 <= r < 0x8000_0000 && (r - n) % 0x1_0000_0000 == 0
  {
    var u := n % 0x1_0000_0000;
    if u < 0x8000_0000 then u else u - 0x1_0000_0000
  }

  function Signed(u: nat): int {
    if u < 0x8000_0000_0000_0000 then u else u - 0x1_0000_0000_0000_0000
  }

  /** A string behind `head` bytes, the last four of which are its length. The sum is compared in 32
      bits. */
  function ShowBytes(data: seq<Byte>, head: nat): (s: Shown<Str>)
    requires 4 <= head < 0x1_0000_0000
    ensures s.Shown? ==> s.used == head + |s.value| <= |data|
  {
    if |data| < head then Refused
    else
      var len := FromLE(data[head - 4..head]);
      if |data| < (head + len) % 0x1_0000_0000 then Refused
      else if |data| < head + len then Stray
      else Shown(data[head..head + len], head + len)
  }

  function Show(data: seq<Byte>): Shown<Reply>
    decreases |data|, 1, 0
  {
    if |data| < 1 then Refused
    else if data[0] == TAG_NIL then Shown(Nil, 0)
    else if data[0] == TAG_ERR then
      match ShowBytes(data, 6)
      case Shown(s, used) => Shown(Err(data[1], s), Int32(used + 3))
      case Stray => Stray
      case Refused => Refused
    else if data[0] == TAG_STR then
      match ShowBytes(data, 5)
      case Shown(s, used) => Shown(Text(s), Int32(used))
      case Stray => Stray
      case Refused => Refused
    else if data[0] == TAG_INT then
      if |data| < 9 then Refused else Shown(Int(Signed(FromLE(data[1..9]))), 9)
    else if data[0] == TAG_DBL then
      if |data| < 9 then Refused else Shown(Dbl(data[1..9]), 9)
    else if data[0] == TAG_ARR then
      if |data| < 5 then Refused
      else
        match ShowElems(data, 5, FromLE(data[1..5]))
        case Shown(rs, used) => Shown(Arr(rs), Int32(used))
        case Stray => Stray
        case Refused => Refused
    else Refused
  }

  /** `n` more elements from position `at` on. */
  function ShowElems(data: seq<Byte>, at: nat, n: nat): (s: Shown<seq<Reply>>)
    requires at > 0
    ensures s.Shown? ==> s.used >= at
    decreases |data|, 0, n
  {
    if n == 0 then Shown([], at)
    else if at >= |data| then (if at == |data| then Refused else Stray)
    else
      match Show(data[at..])
      case Refused => Refused
      case Stray => Stray
      case Shown(r, used) =>
        if used < 0 then Refused
        else
          match ShowElems(data, at + used, n - 1)
          case Shown(rs, total) => Shown([r] + rs, total)
          case Stray => Stray
          case Refused => Refused
  }

  /** The cases that are no arrays. */
  method PrintOne(data: seq<Byte>) returns (r: Shown<Reply>)
    requires |data| > 0 && data[0] != TAG_ARR
    ensures r == Show(data)
  {
    hide Int32;
    hide Signed;
    hide FromLE;
    if data[0] == TAG_NIL {
      return Shown(Nil, 0);
    }
    if data[0] == TAG_ERR || data[0] == TAG_STR {
      var head := if data[0] == TAG_ERR then 6 else 5;
      if |data| < head {
        return Refused;
      }
      var len := FromLE(data[head - 4..head]);
      if |data| < (head + len) % 0x1_0000_0000 {
        return Refused;
      }
      if |data| < head + len {
        return Stray;
      }
      var text := data[head..head + len];
      return if data[0] == TAG_ERR then Shown(Err(data[1], text), Int32(1 + 8 + len))
             else Shown(Text(text), Int32(1 + 4 + len));
    }
    if data[0] != TAG_INT && data[0] != TAG_DBL {
      return Refused;
    }
    if |data| < 1 + 8 {
      return Refused;
    }
    var val := data[1..9];
    return Shown(if data[0] == TAG_INT then Int(Signed(FromLE(val))) else Dbl(val), 1 + 8);
  }

  /** The client's recursive function, with the loop over the elements of an array. */
  method PrintResponse(data: seq<Byte>) returns (r: Shown<Reply>)
    ensures r == Show(data)
    decreases |data|
  {
    hide *;
    ShowFirst(data);
    if |data| < 1 {
      return Refused;
    }
    if data[0] != TAG_ARR {
      r := PrintOne(data);
      return;
    }
    if |data| < 1 + 4 {
      return Refused;
    }
    var len := FromLE(data[1..5]);
    var arrBytes: nat := 5;
    var shown: seq<Reply> := [];
    var i := 0;
    AfterNone(ShowElems(data, 5, len));
    while i < len
      invariant i <= len && arrBytes > 0
      invariant ShowElems(data, 5, len) == After(shown, ShowElems(data, arrBytes, len - i))
    {
      ShowNext(data, arrBytes, len - i);
      AfterFailed(shown);
      if arrBytes > |data| {
        return Stray;
      }
      var rv := PrintResponse(data[arrBytes..]);
      if !rv.Shown? {
        return rv;
      }
      if rv.used < 0 {
        return Refused;
      }
      AfterOne(shown, rv.value, ShowElems(data, arrBytes + rv.used, len - i - 1));
      shown := shown + [rv.value];
      arrBytes := arrBytes + rv.used;
      i := i + 1;
    }
    ShowNone(data, arrBytes);
    AfterAll(shown, arrBytes);
    return Shown(Arr(shown), Int32(arrBytes));
  }

  lemma ShowFirst(data: seq<Byte>)
    ensures |data| < 1 ==> Show(data) == Refused
    ensures |data| >= 1 && data[0] == TAG_ARR ==>
              Show(data) == if |data| < 5 then Refused
                            else match ShowElems(data, 5, FromLE(data[1..5]))
                                 case Shown(rs, used) => Shown(Arr(rs), Int32(used))
                                 case Stray => Stray
                                 case Refused => Refused
  {
  }

  /** One turn of the loop over the elements. */
  lemma ShowNext(data: seq<Byte>, at: nat, n: nat)
    requires at > 0 && n > 0
    ensures ShowElems(data, at, n) ==
            if at > |data| then Stray
            else match Show(data[at..])
                 case Refused => Refused
                 case Stray => Stray
                 case Shown(r, used) => if used < 0 then Refused else After([r], ShowElems(data, at + used, n - 1))
  {
    assert data[|data|..] == [];
  }

  lemma ShowNone(data: seq<Byte>, at: nat)
    requires at > 0
    ensures ShowElems(data, at, 0) == Shown([], at)
  {
  }

  lemma AfterNone(s: Shown<seq<Reply>>)
    ensures After([], s) == s
  {
  }

  lemma AfterFailed(shown: seq<Reply>)
    ensures After(shown, Stray) == Stray && After(shown, Refused) == Refused
  {
  }

  lemma AfterAll(shown: seq<Reply>, at: nat)
    ensures After(shown, Shown([], at)) == Shown(shown, at)
  {
    assert shown + [] == shown;
  }

  ghost function After(shown: seq<Reply>, s: Shown<seq<Reply>>): (t: Shown<seq<Reply>>)
    ensures shown == [] ==> t == s
  {
    match s
    case Shown(rs, used) =>
      assert [] + rs == rs;
      Shown(shown + rs, used)
    case Stray => Stray
    case Refused => Refused
  }

  lemma AfterOne(shown: seq<Reply>, r: Reply, s: Shown<seq<Reply>>)
    ensures After(shown, After([r], s)) == After(shown + [r], s)
  {
    if s.Shown? {
      assert shown + ([r] + s.value) == shown + [r] + s.value;
    }
  }

  // ---------------------------------------------------------------- what is shown is what was sent

  /** Strings, 64-bit integers, doubles, and arrays of these. */
  predicate Plain(r: Reply) {
    match r
    case Nil => false
    case Err(_, _) => false
    case Text(_) => true
    case Int(v) => -0x8000_0000_0000_0000 <= v < 0x8000_0000_0000_0000
    case Dbl(_) => true
    case Arr(elems) => forall e :: e in elems ==> Plain(e)
  }

  lemma Slices(head: seq<Byte>, l: seq<Byte>, s: Str, rest: seq<Byte>)
    requires |l| == 4
    ensures var data, h := head + l + s + rest, |head| + 4;
            |data| >= h + |s| && data[h - 4..h] == l && data[h..h + |s|] == s
  {
  }

  lemma ShowsBytes(head: seq<Byte>, s: Str, rest: seq<Byte>)
    requires |head| + 4 + |s| < 0x1_0000_0000
    ensures ShowBytes(head + LE(|s|, 4) + s + rest, |head| + 4) == Shown(s, |head| + 4 + |s|)
  {
    hide *;
    SmallLE(|s|);
    Slices(head, LE(|s|, 4), s, rest);
    ShowBytesOf(head + LE(|s|, 4) + s + rest, |head| + 4, |s|);
  }

  lemma ShowBytesOf(data: seq<Byte>, head: nat, len: nat)
    requires 4 <= head && head + len < 0x1_0000_0000 && head + len <= |data| && FromLE(data[head - 4..head]) == len
    ensures ShowBytes(data, head) == Shown(data[head..head + len], head + len)
  {
  }

  lemma SignedWrap(v: int)
    requires -0x8000_0000_0000_0000 <= v < 0x8000_0000_0000_0000
    ensures Signed(FromLE(LE(Wrap64(v), 8))) == v
  {
    assert Pow256(8) == 256 * Pow256(7) == 65536 * Pow256(6) == 0x100_0000 * Pow256(5) == 0x1_0000_0000 * Pow256(4);
    assert Pow256(4) == 256 * Pow256(3) == 65536 * Pow256(2) == 0x1_0000_0000;
    FromToLE(Wrap64(v), 8);
  }

  lemma {:induction false} ManyElems(rs: seq<Reply>)
    ensures |rs| <= |EncodeAll(rs)|
  {
    if rs != [] {
      ManyElems(rs[1..]);
    }
  }

  /** A plain reply is shown as it is, and with its own length. */
  lemma {:induction false} ShowsPlain(r: Reply, rest: seq<Byte>)
    requires Plain(r) && |Encode(r)| < 0x8000_0000
    ensures Show(Encode(r) + rest) == Shown(r, |Encode(r)|)
    decreases r
  {
    var data := Encode(r) + rest;
    match r
    case Text(s) =>
      ShowsBytes([TAG_STR], s, rest);
    case Int(v) =>
      SignedWrap(v);
      assert data[1..9] == LE(Wrap64(v), 8);
    case Dbl(bits) =>
      assert data[1..9] == bits;
    case Arr(elems) =>
      ManyElems(elems);
      SmallLE(|elems|);
      assert data[1..5] == LE(|elems|, 4);
      ShowsElems([TAG_ARR] + LE(|elems|, 4), elems, rest);
      assert data == [TAG_ARR] + LE(|elems|, 4) + EncodeAll(elems) + rest;
  }

  lemma {:induction false} ShowsElems(head: seq<Byte>, elems: seq<Reply>, rest: seq<Byte>)
    requires |head| > 0 && (forall e :: e in elems ==> Plain(e)) && |head| + |EncodeAll(elems)| < 0x8000_0000
    ensures ShowElems(head + EncodeAll(elems) + rest, |head|, |elems|) == Shown(elems, |head| + |EncodeAll(elems)|)
    decreases elems
  {
    hide Encode;
    hide LE;
    hide Show;
    if elems != [] {
      var data, e, later := head + EncodeAll(elems) + rest, Encode(elems[0]), EncodeAll(elems[1..]);
      assert data[|head|..] == e + (later + rest);
      ShowsPlain(elems[0], later + rest);
      ShowsElems(head + e, elems[1..], rest);
      assert data == head + e + later + rest;
      assert [elems[0]] + elems[1..] == elems;
    }
  }

  /** The replies that the server sends. */
  predicate Servable(r: Reply) {
    r.Nil? || r.Err? || Plain(r)
  }

  /** The client shows every reply the server sends as it is, but only plain ones with the number of
      bytes they take: 0 for nil, and 3 too many for an error. */
  lemma ClientShows(r: Reply, rest: seq<Byte>)
    requires Servable(r) && |Encode(r)| + 3 < 0x8000_0000
    ensures Show(Encode(r) + rest).Shown? && Show(Encode(r) + rest).value == r
    ensures Show(Encode(r) + rest).used == |Encode(r)| <==> Plain(r)
    ensures r.Nil? ==> Show(Encode(r) + rest).used == 0
    ensures r.Err? ==> Show(Encode(r) + rest).used == |Encode(r)| + 3
  {
    match r
    case Nil =>
    case Err(code, msg) =>
      ShowsBytes([TAG_ERR, code], msg, rest);
    case Text(_) => ShowsPlain(r, rest);
    case Int(_) => ShowsPlain(r, rest);
    case Dbl(_) => ShowsPlain(r, rest);
    case Arr(_) => ShowsPlain(r, rest);
  }

  // ---------------------------------------------------------------- what is cut short is refused

  lemma CutBytes(head: seq<Byte>, s: Str, n: nat)
    requires 0 < |head| && |head| + 4 + |s| < 0x1_0000_0000 && n < |head| + 4 + |s|
    ensures ShowBytes((head + LE(|s|, 4) + s)[..n], |head| + 4) == Refused
  {
    hide *;
    var all, h := head + LE(|s|, 4) + s, |head| + 4;
    SmallLE(|s|);
    if n >= h {
      HeadKept(head, LE(|s|, 4), s, n);
    }
    TooFew(all[..n], h, |s|);
  }

  lemma HeadKept(head: seq<Byte>, l: seq<Byte>, s: Str, n: nat)
    requires |l| == 4 && |head| + 4 <= n <= |head| + 4 + |s|
    ensures (head + l + s)[..n][|head|..|head| + 4] == l
  {
  }

  lemma TooFew(data: seq<Byte>, head: nat, len: nat)
    requires 4 <= head && |data| < head + len < 0x1_0000_0000
    requires |data| >= head ==> FromLE(data[head - 4..head]) == len
    ensures ShowBytes(data, head) == Refused
  {
  }

  /** When a message is refused, kind by kind. */
  lemma RefusedIf(data: seq<Byte>)
    ensures data == [] ==> Show(data) == Refused
    ensures data != [] && data[0] == TAG_STR && ShowBytes(data, 5) == Refused ==> Show(data) == Refused
    ensures data != [] && data[0] == TAG_ERR && ShowBytes(data, 6) == Refused ==> Show(data) == Refused
    ensures data != [] && data[0] in {TAG_INT, TAG_DBL} && |data| < 9 ==> Show(data) == Refused
    ensures data != [] && data[0] == TAG_ARR && |data| < 5 ==> Show(data) == Refused
    ensures |data| >= 5 && data[0] == TAG_ARR && ShowElems(data, 5, FromLE(data[1..5])) == Refused ==>
              Show(data) == Refused
  {
    hide ShowBytes;
    hide ShowElems;
    hide FromLE;
  }

  lemma CutText(s: Str, n: nat)
    requires |s| + 5 < 0x1_0000_0000 && 0 < n < |s| + 5
    ensures Show(Encode(Text(s))[..n]) == Refused
  {
    assert Encode(Text(s)) == [TAG_STR] + LE(|s|, 4) + s;
    hide *;
    CutBytes([TAG_STR], s, n);
    RefusedIf(Encode(Text(s))[..n]);
  }

  lemma CutErr(code: Byte, msg: Str, n: nat)
    requires |msg| + 6 < 0x1_0000_0000 && 0 < n < |msg| + 6
    ensures Show(Encode(Err(code, msg))[..n]) == Refused
  {
    assert Encode(Err(code, msg)) == [TAG_ERR, code] + LE(|msg|, 4) + msg && TAG_ERR != TAG_STR;
    hide *;
    CutBytes([TAG_ERR, code], msg, n);
    RefusedIf(Encode(Err(code, msg))[..n]);
  }

  lemma ArrayParts(elems: seq<Reply>, n: nat)
    requires |Encode(Arr(elems))| < 0x8000_0000 && 5 <= n < |Encode(Arr(elems))|
    ensures |Encode(Arr(elems))| == 5 + |EncodeAll(elems)|
    ensures var data := Encode(Arr(elems))[..n];
            && data[0] == TAG_ARR && FromLE(data[1..5]) == |elems|
            && data == [TAG_ARR] + LE(|elems|, 4) + EncodeAll(elems)[..n - 5]
  {
    assert Encode(Arr(elems)) == [TAG_ARR] + LE(|elems|, 4) + EncodeAll(elems);
    hide *;
    ManyElems(elems);
    SmallLE(|elems|);
    var data := Encode(Arr(elems))[..n];
    assert data[1..5] == LE(|elems|, 4);
  }

  /** A plain reply that is cut short is refused. */
  lemma {:induction false} CutPlain(r: Reply, n: nat)
    requires Plain(r) && |Encode(r)| < 0x8000_0000 && n < |Encode(r)|
    ensures Show(Encode(r)[..n]) == Refused
    decreases r
  {
    hide Show;
    hide LE;
    RefusedIf(Encode(r)[..n]);
    if n > 0 {
      match r
      case Text(s) => CutText(s, n);
      case Int(_) =>
      case Dbl(_) =>
      case Arr(elems) =>
        if n >= 5 {
          ArrayParts(elems, n);
          CutElems([TAG_ARR] + LE(|elems|, 4), elems, n - 5);
        }
    }
  }

  lemma {:induction false} CutElems(head: seq<Byte>, elems: seq<Reply>, n: nat)
    requires |head| > 0 && (forall e :: e in elems ==> Plain(e)) && |head| + |EncodeAll(elems)| < 0x8000_0000
    requires n < |EncodeAll(elems)|
    ensures ShowElems(head + EncodeAll(elems)[..n], |head|, |elems|) == Refused
    decreases elems
  {
    hide Encode;
    hide LE;
    hide Show;
    hide Plain;
    var e, later := Encode(elems[0]), EncodeAll(elems[1..]);
    var data := head + EncodeAll(elems)[..n];
    if n < |e| {
      assert data[|head|..] == e[..n];
      CutPlain(elems[0], n);
    } else {
      assert data[|head|..] == e + later[..n - |e|];
      ShowsPlain(elems[0], later[..n - |e|]);
      assert data == (head + e) + later[..n - |e|];
      CutElems(head + e, elems[1..], n - |e|);
    }
  }

  /** Whatever the server sends, the client refuses it when bytes are missing at its end. */
  lemma CutIsRefused(r: Reply, n: nat)
    requires Servable(r) && |Encode(r)| < 0x8000_0000 && n < |Encode(r)|
    ensures Show(Encode(r)[..n]) == Refused
  {
    RefusedIf(Encode(r)[..n]);
    hide Show;
    hide LE;
    match r
    case Nil =>
    case Err(code, msg) =>
      if n > 0 {
        CutErr(code, msg, n);
      }
    case Text(_) => CutPlain(r, n);
    case Int(_) => CutPlain(r, n);
    case Dbl(_) => CutPlain(r, n);
    case Arr(_) => CutPlain(r, n);
  }

  // ---------------------------------------------------------------- one response of the stream

  /** What reading one response from a stream comes to: the stream ends too early, the length is too
      large, or a message is shown and the stream goes on behind it. */
  datatype Heard = Ended | TooLong | Message(shown: Shown<Reply>, rest: seq<Byte>)

  /** Lines 119-154 of client/client.cpp. */
  method ReadRes(stream: seq<Byte>) returns (h: Heard)
    ensures h == Hear(stream)
  {
    hide Show;
    hide FromLE;
    if |stream| < 4 {
      return Ended;
    }
    var len := FromLE(stream[..4]);
    if len > MAX_MSG {
      return TooLong;
    }
    if |stream| - 4 < len {
      return Ended;
    }
    var shown := PrintResponse(stream[4..4 + len]);
    return Message(shown, stream[4 + len..]);
  }

  function Hear(stream: seq<Byte>): Heard {
    if |stream| < 4 then Ended
    else
      var len := FromLE(stream[..4]);
      if len > MAX_MSG then TooLong
      else if |stream| < 4 + len then Ended
      else Message(Show(stream[4..4 + len]), stream[4 + len..])
  }

  /** The replies in a stream, as long as they are shown. */
  function HearAll(stream: seq<Byte>, n: nat): Option<seq<Reply>> {
    if n == 0 then (if stream == [] then Some([]) else None)
    else
      match Hear(stream)
      case Message(Shown(r, _), rest) =>
        (match HearAll(rest, n - 1)
         case Some(rs) => Some([r] + rs)
         case None => None)
      case _ => None
  }
}
