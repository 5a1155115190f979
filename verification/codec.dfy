/** The tag-length-value encoding of shared/include/MRD_utility.h and the request format shared by
    the client and the server. */
module Codec {
  import opened Bytes
  import opened Buffers

  const TAG_NIL: Byte := 0
  const TAG_ERR: Byte := 1
  const TAG_STR: Byte := 2
  const TAG_INT: Byte := 3
  const TAG_DBL: Byte := 4
  const TAG_ARR: Byte := 5

  const ERR_BAD_TYPE: Byte := 0
  const ERR_NOT_FOUND: Byte := 1
  const ERR_OUT_OF_RANGE: Byte := 2
  const ERR_UNEXPECTED: Byte := 3

  const MAX_MSG: nat := 0x10_0000
  const MAX_CMDS: nat := 500

  // ---------------------------------------------------------------- integers

  function Pow256(k: nat): nat {
    if k == 0 then 1 else 256 * Pow256(k - 1)
  }

  /** The `k` low bytes of `n`, least significant first, as memcpy of an integer writes them. */
  function LE(n: nat, k: nat): (s: seq<Byte>)
    ensures |s| == k
  {
    if k == 0 then [] else [n % 256] + LE(n / 256, k - 1)
  }

  function FromLE(s: seq<Byte>): nat {
    if s == [] then 0 else s[0] + 256 * FromLE(s[1..])
  }

  lemma {:induction false} FromToLE(n: nat, k: nat)
    requires n < Pow256(k)
    ensures FromLE(LE(n, k)) == n
  {
    if k > 0 {
      FromToLE(n / 256, k - 1);
      assert LE(n, k)[1..] == LE(n / 256, k - 1);
    }
  }

  lemma LowByte(b: Byte, m: nat)
    ensures (b + 256 * m) % 256 == b && (b + 256 * m) / 256 == m
  {
  }

  lemma {:induction false} ToFromLE(s: seq<Byte>)
    ensures LE(FromLE(s), |s|) == s && FromLE(s) < Pow256(|s|)
  {
    if s != [] {
      ToFromLE(s[1..]);
      LowByte(s[0], FromLE(s[1..]));
    }
  }

  // ---------------------------------------------------------------- replies

  /** The eight bytes of a double. */
  type Double = s: Str | |s| == 8 witness [0, 0, 0, 0, 0, 0, 0, 0]

  /** What a response says. */
  datatype Reply =
    | Nil
    | Err(code: Byte, msg: Str)
    | Text(s: Str)
    | Int(v: int)
    | Dbl(bits: Double)
    | Arr(elems: seq<Reply>)

  /** Two's complement in 64 bits. */
  function Wrap64(v: int): nat {
    v % 0x1_0000_0000_0000_0000
  }

  function Encode(r: Reply): (s: seq<Byte>)
    ensures |s| > 0
  {
    match r
    case Nil => [TAG_NIL]
    case Err(code, msg) => [TAG_ERR, code] + LE(|msg|, 4) + msg
    case Text(s) => [TAG_STR] + LE(|s|, 4) + s
    case Int(v) => [TAG_INT] + LE(Wrap64(v), 8)
    case Dbl(bits) => [TAG_DBL] + bits
    case Arr(elems) => [TAG_ARR] + LE(|elems|, 4) + EncodeAll(elems)
  }

  function EncodeAll(rs: seq<Reply>): seq<Byte> {
    if rs == [] then [] else Encode(rs[0]) + EncodeAll(rs[1..])
  }

  lemma {:induction false} EncodeAllConcat(a: seq<Reply>, b: seq<Reply>)
    ensures EncodeAll(a + b) == EncodeAll(a) + EncodeAll(b)
  {
    hide Encode;
    if a == [] {
      assert a + b == b;
    } else {
      EncodeAllConcat(a[1..], b);
      assert (a + b)[1..] == a[1..] + b && (a + b)[0] == a[0];
      assert Encode(a[0]) + (EncodeAll(a[1..]) + EncodeAll(b)) == Encode(a[0]) + EncodeAll(a[1..]) + EncodeAll(b);
    }
  }

  // ---------------------------------------------------------------- writing replies

  method OutNil(out: Buffer) returns (n: nat)
    requires out.Valid()
    modifies out, out.mem
    ensures out.Valid() && (out.mem == old(out.mem) || fresh(out.mem))
    ensures out.Contents() == old(out.Contents()) + Encode(Nil) && n == |Encode(Nil)|
  {
    out.Append([TAG_NIL]);
    n := 1;
  }

  method OutStr(out: Buffer, s: Str) returns (n: nat)
    requires out.Valid()
    modifies out, out.mem
    ensures out.Valid() && (out.mem == old(out.mem) || fresh(out.mem))
    ensures out.Contents() == old(out.Contents()) + Encode(Text(s)) && n == |Encode(Text(s))|
  {
    out.Append([TAG_STR]);
    out.Append(LE(|s|, 4));
    out.Append(s);
    n := 1 + 4 + |s|;
  }

  method OutInt(out: Buffer, v: int) returns (n: nat)
    requires out.Valid()
    modifies out, out.mem
    ensures out.Valid() && (out.mem == old(out.mem) || fresh(out.mem))
    ensures out.Contents() == old(out.Contents()) + Encode(Int(v)) && n == |Encode(Int(v))|
  {
    out.Append([TAG_INT]);
    out.Append(LE(Wrap64(v), 8));
    n := 1 + 8;
  }

  method OutDbl(out: Buffer, bits: Double) returns (n: nat)
    requires out.Valid()
    modifies out, out.mem
    ensures out.Valid() && (out.mem == old(out.mem) || fresh(out.mem))
    ensures out.Contents() == old(out.Contents()) + Encode(Dbl(bits)) && n == |Encode(Dbl(bits))|
  {
    out.Append([TAG_DBL]);
    out.Append(bits);
    n := 1 + 8;
  }

  method OutErr(out: Buffer, code: Byte, msg: Str) returns (n: nat)
    requires out.Valid()
    modifies out, out.mem
    ensures out.Valid() && (out.mem == old(out.mem) || fresh(out.mem))
    ensures out.Contents() == old(out.Contents()) + Encode(Err(code, msg)) && n == |Encode(Err(code, msg))|
  {
    hide LE;
    ghost var before := out.Contents();
    out.Append([TAG_ERR]);
    out.Append([code]);
    out.Append(LE(|msg|, 4));
    out.Append(msg);
    n := 1 + 1 + 4 + |msg|;
    ErrParts(before, code, msg);
  }

  lemma ErrParts(before: seq<Byte>, code: Byte, msg: Str)
    ensures before + [TAG_ERR] + [code] + LE(|msg|, 4) + msg == before + Encode(Err(code, msg))
  {
    hide LE;
    var n := LE(|msg|, 4);
    assert [TAG_ERR, code] == [TAG_ERR] + [code];
    Regroup(before, [TAG_ERR], [code], n);
    Regroup(before, [TAG_ERR] + [code], n, msg);
  }

  lemma Regroup(a: seq<Byte>, b: seq<Byte>, c: seq<Byte>, d: seq<Byte>)
    ensures a + b + c + d == a + (b + c + d) && a + b + c == a + (b + c)
  {
    assert a + b + c == a + (b + c);
    assert a + (b + c) + d == a + (b + c + d);
  }

  /** Opens an array with a count of zero; the result counts the bytes after the tag. */
  method OutBeginArr(out: Buffer) returns (ctx: nat)
    requires out.Valid()
    modifies out, out.mem
    ensures out.Valid() && (out.mem == old(out.mem) || fresh(out.mem))
    ensures out.Contents() == old(out.Contents()) + [TAG_ARR] + LE(0, 4) && ctx == 4
  {
    out.Append([TAG_ARR]);
    out.Append(LE(0, 4));
    ctx := 1 + 4 - 1;
  }

  /** The placeholder of the count stands just after the tag. */
  lemma ArraySplit(before: seq<Byte>, n: nat, elems: seq<Reply>)
    requires |elems| == n
    ensures var s, i := before + [TAG_ARR] + LE(0, 4) + EncodeAll(elems), |before| + 1;
            && |s| - 4 - |EncodeAll(elems)| == i && s[|before|] == TAG_ARR
            && s[..i] + LE(n, 4) + s[i + 4..] == before + Encode(Arr(elems))
  {
    var s, i := before + [TAG_ARR] + LE(0, 4) + EncodeAll(elems), |before| + 1;
    assert s[..i] == before + [TAG_ARR];
    assert s[i + 4..] == EncodeAll(elems);
    assert before + [TAG_ARR] + LE(n, 4) + EncodeAll(elems) == before + ([TAG_ARR] + LE(n, 4) + EncodeAll(elems));
  }

  /** Closes an array: `ctx` bytes back from the end stands the placeholder of its count. */
  method OutEndArr(out: Buffer, ctx: nat, n: nat, ghost before: seq<Byte>, ghost elems: seq<Reply>) returns (len: nat)
    requires out.Valid() && |elems| == n && ctx == 4 + |EncodeAll(elems)|
    requires out.Contents() == before + [TAG_ARR] + LE(0, 4) + EncodeAll(elems)
    modifies out.mem
    ensures out.Valid() && out.Contents() == before + Encode(Arr(elems))
    ensures len == 5
  {
    ghost var s, i := out.Contents(), |before| + 1;
    ArraySplit(before, n, elems);
    assert out.mem[out.data_end - ctx - 1] == s[|before|] == TAG_ARR;
    out.Patch(ctx, LE(n, 4));
    len := 1 + 4;
  }

  // ---------------------------------------------------------------- requests

  datatype Option<+T> = None | Some(value: T)

  /** The words of a request, each as a tagged string. */
  function EncodeWords(ws: seq<Str>): seq<Byte> {
    if ws == [] then [] else Encode(Text(ws[0])) + EncodeWords(ws[1..])
  }

  function EncodeReq(cmd: seq<Str>): seq<Byte> {
    LE(|cmd|, 4) + EncodeWords(cmd)
  }

  lemma {:induction false} EncodeWordsConcat(a: seq<Str>, b: seq<Str>)
    ensures EncodeWords(a + b) == EncodeWords(a) + EncodeWords(b)
  {
    hide Encode;
    if a == [] {
      assert a + b == b;
    } else {
      EncodeWordsConcat(a[1..], b);
      assert (a + b)[1..] == a[1..] + b && (a + b)[0] == a[0];
      assert Encode(Text(a[0])) + (EncodeWords(a[1..]) + EncodeWords(b)) ==
             Encode(Text(a[0])) + EncodeWords(a[1..]) + EncodeWords(b);
    }
  }

  /** The payload after `i` words have been written. */
  ghost function EncodeReqPart(cmd: seq<Str>, i: nat): seq<Byte>
    requires i <= |cmd|
  {
    LE(|cmd|, 4) + EncodeWords(cmd[..i])
  }

  lemma OneMoreWord(cmd: seq<Str>, i: nat)
    requires i < |cmd|
    ensures EncodeReqPart(cmd, i + 1) == EncodeReqPart(cmd, i) + Encode(Text(cmd[i]))
  {
    EncodeWordsConcat(cmd[..i], [cmd[i]]);
    assert cmd[..i + 1] == cmd[..i] + [cmd[i]];
    assert EncodeWords([cmd[i]]) == Encode(Text(cmd[i])) + EncodeWords([]);
  }

  lemma NoWordsYet(cmd: seq<Str>)
    ensures LE(0, 4) + EncodeReqPart(cmd, 0) == LE(0, 4) + LE(|cmd|, 4) && |EncodeReqPart(cmd, 0)| == 4
  {
    assert LE(|cmd|, 4) + [] == LE(|cmd|, 4);
  }

  lemma AllWords(cmd: seq<Str>)
    ensures EncodeReqPart(cmd, |cmd|) == EncodeReq(cmd)
  {
    assert cmd[..|cmd|] == cmd;
  }

  /** The client's request: a frame, or nothing if the payload is too long for one. */
  method SendReq(cmd: seq<Str>) returns (frame: Option<seq<Byte>>)
    ensures frame == if |EncodeReq(cmd)| <= MAX_MSG then Some(LE(|EncodeReq(cmd)|, 4) + EncodeReq(cmd)) else None
  {
    hide *;
    var len: nat := 0;
    var b := new Buffer(64 * 1024);
    b.Append(LE(len, 4));
    b.Append(LE(|cmd|, 4));
    len := len + 4;
    NoWordsYet(cmd);
    for i := 0 to |cmd|
      invariant b.Valid() && fresh(b) && fresh(b.mem)
      invariant b.Contents() == LE(0, 4) + EncodeReqPart(cmd, i)
      invariant len == |EncodeReqPart(cmd, i)|
    {
      var n := OutStr(b, cmd[i]);
      len := len + n;
      OneMoreWord(cmd, i);
    }
    AllWords(cmd);
    if len > MAX_MSG {
      return None;
    }
    AfterHeader(LE(0, 4), LE(len, 4), EncodeReq(cmd));
    b.Whole();
    b.Patch(b.data_length, LE(len, 4));
    b.Whole();
    frame := Some(b.mem[b.data_begin..b.data_end]);
  }

  lemma AfterHeader(h: seq<Byte>, h': seq<Byte>, body: seq<Byte>)
    requires |h| == |h'|
    ensures (h + body)[..0] + h' + (h + body)[0 + |h'|..] == h' + body
  {
    assert (h + body)[|h|..] == body;
  }

  /** Reads one tagged string at the front of `s`. */
  function ReadWord(s: seq<Byte>): (r: Option<(Str, seq<Byte>)>)
    ensures r.Some? ==> |r.value.1| < |s|
  {
    if |s| < 1 || s[0] != TAG_STR || |s| < 5 then None
    else
      var len := FromLE(s[1..5]);
      if |s| < 5 + len then None else Some((s[5..5 + len], s[5 + len..]))
  }

  /** Reads exactly `n` words and nothing after them. */
  function ReadWords(s: seq<Byte>, n: nat): Option<seq<Str>> {
    if n == 0 then (if s == [] then Some([]) else None)
    else
      match ReadWord(s)
      case None => None
      case Some((w, rest)) =>
        match ReadWords(rest, n - 1)
        case None => None
        case Some(ws) => Some([w] + ws)
  }

  function ParsePayload(data: seq<Byte>): Option<seq<Str>> {
    if |data| < 4 || FromLE(data[..4]) > MAX_CMDS then None
    else ReadWords(data[4..], FromLE(data[..4]))
  }

  lemma SmallLE(n: nat)
    requires n < 0x1_0000_0000
    ensures FromLE(LE(n, 4)) == n
  {
    assert Pow256(4) == 256 * Pow256(3) == 65536 * Pow256(2) == 0x1_0000_0000;
    FromToLE(n, 4);
  }

  lemma LEOfFour(s: seq<Byte>)
    requires |s| == 4
    ensures LE(FromLE(s), 4) == s && FromLE(s) < 0x1_0000_0000
  {
    assert Pow256(4) == 256 * Pow256(3) == 65536 * Pow256(2) == 0x1_0000_0000;
    ToFromLE(s);
  }

  lemma ReadEncodedWord(w: Str, rest: seq<Byte>)
    requires |w| < 0x1_0000_0000
    ensures ReadWord(Encode(Text(w)) + rest) == Some((w, rest))
  {
    SmallLE(|w|);
    var s := Encode(Text(w)) + rest;
    assert s[1..5] == LE(|w|, 4);
    assert s[5..5 + |w|] == w && s[5 + |w|..] == rest;
  }

  lemma WordIsEncoded(s: seq<Byte>)
    requires ReadWord(s).Some?
    ensures s == Encode(Text(ReadWord(s).value.0)) + ReadWord(s).value.1
  {
    LEOfFour(s[1..5]);
    var len := FromLE(s[1..5]);
    assert s == [s[0]] + s[1..5] + s[5..5 + len] + s[5 + len..];
  }

  lemma NoWords()
    ensures ReadWords(EncodeWords([]), 0) == Some([])
  {
  }

  lemma {:induction false} ReadEncodedWords(ws: seq<Str>)
    requires |EncodeWords(ws)| < 0x1_0000_0000
    ensures ReadWords(EncodeWords(ws), |ws|) == Some(ws)
  {
    if ws != [] {
      var w, rest := ws[0], EncodeWords(ws[1..]);
      assert EncodeWords(ws) == Encode(Text(w)) + rest;
      ReadEncodedWord(w, rest);
      ReadEncodedWords(ws[1..]);
      assert ws == [w] + ws[1..];
    } else {
      NoWords();
      assert ws == [];
    }
  }

  lemma {:induction false} WordsAreEncoded(s: seq<Byte>, n: nat)
    requires ReadWords(s, n).Some?
    ensures var ws := ReadWords(s, n).value; |ws| == n && s == EncodeWords(ws)
  {
    if n > 0 {
      WordIsEncoded(s);
      WordsAreEncoded(ReadWord(s).value.1, n - 1);
    }
  }

  /** Parsing and encoding requests are inverse: the parser accepts exactly the encodings of lists of
      at most MAX_CMDS words, and gives each list back. */
  lemma ParseInvertsEncode(data: seq<Byte>, cmd: seq<Str>)
    requires |data| < 0x1_0000_0000
    ensures ParsePayload(data) == Some(cmd) <==> |cmd| <= MAX_CMDS && data == EncodeReq(cmd)
  {
    if ParsePayload(data) == Some(cmd) {
      LEOfFour(data[..4]);
      WordsAreEncoded(data[4..], FromLE(data[..4]));
      assert data == data[..4] + data[4..];
    }
    if |cmd| <= MAX_CMDS && data == EncodeReq(cmd) {
      SmallLE(|cmd|);
      assert data[..4] == LE(|cmd|, 4) && data[4..] == EncodeWords(cmd);
      ReadEncodedWords(cmd);
    }
  }

  // ---------------------------------------------------------------- reading with a cursor

  method ReadU32(data: seq<Byte>, cur: nat) returns (ok: bool, next: nat, v: nat)
    requires cur <= |data|
    ensures ok <==> cur + 4 <= |data|
    ensures next == (if ok then cur + 4 else cur) && (ok ==> v == FromLE(data[cur..cur + 4]))
  {
    if cur + 4 > |data| {
      return false, cur, 0;
    }
    return true, cur + 4, FromLE(data[cur..cur + 4]);
  }

  method ReadU8(data: seq<Byte>, cur: nat) returns (ok: bool, next: nat, v: Byte)
    requires cur <= |data|
    ensures ok <==> cur + 1 <= |data|
    ensures next == (if ok then cur + 1 else cur) && (ok ==> v == data[cur])
  {
    if cur + 1 > |data| {
      return false, cur, 0;
    }
    return true, cur + 1, data[cur];
  }

  method ReadStr(data: seq<Byte>, cur: nat, n: nat) returns (ok: bool, next: nat, s: Str)
    requires cur <= |data|
    ensures ok <==> cur + n <= |data|
    ensures next == (if ok then cur + n else cur) && (ok ==> s == data[cur..cur + n])
  {
    if cur + n > |data| {
      return false, cur, [];
    }
    return true, cur + n, data[cur..cur + n];
  }

  /** Lines 132-142: one tagged string. */
  method ReadTagged(data: seq<Byte>, start: nat) returns (ok: bool, cur: nat, w: Str)
    requires start <= |data|
    ensures cur <= |data|
    ensures ok <==> ReadWord(data[start..]).Some?
    ensures ok ==> ReadWord(data[start..]) == Some((w, data[cur..]))
  {
    var tag, len;
    w := [];
    ok, cur, tag := ReadU8(data, start);
    if !ok || tag != TAG_STR {
      return false, cur, [];
    }
    ok, cur, len := ReadU32(data, cur);
    if !ok {
      return;
    }
    assert data[start..][1..5] == data[start + 1..start + 5];
    ok, cur, w := ReadStr(data, cur, len);
    if ok {
      assert data[start..][5..5 + len] == w && data[start..][5 + len..] == data[cur..];
    }
  }

  /** The server's parser, with its cursor: the same lists as `ParsePayload`. */
  method ParseReq(data: seq<Byte>) returns (r: Option<seq<Str>>)
    ensures r == ParsePayload(data)
  {
    var ok, cur, nstr := ReadU32(data, 0);
    if !ok || nstr > MAX_CMDS {
      return None;
    }
    var words: seq<Str> := [];
    assert data[0..4] == data[..4];
    while |words| < nstr
      invariant cur <= |data| && |words| <= nstr
      invariant ParsePayload(data) == Prepend(words, ReadWords(data[cur..], nstr - |words|))
    {
      var w;
      ghost var start := cur;
      ok, cur, w := ReadTagged(data, cur);
      if !ok {
        return None;
      }
      NextWord(words, w, ReadWords(data[cur..], nstr - |words| - 1));
      words := words + [w];
    }
    assert words + [] == words;
    if cur != |data| {
      return None;
    }
    return Some(words);
  }

  /** Words already read, put before those still to come. */
  ghost function Prepend(words: seq<Str>, r: Option<seq<Str>>): (p: Option<seq<Str>>)
    ensures words == [] ==> p == r
  {
    if r.None? then None
    else
      assert [] + r.value == r.value;
      Some(words + r.value)
  }

  lemma NextWord(words: seq<Str>, w: Str, r: Option<seq<Str>>)
    ensures Prepend(words, Prepend([w], r)) == Prepend(words + [w], r)
  {
    assert r.Some? ==> words + ([w] + r.value) == (words + [w]) + r.value;
  }
}
