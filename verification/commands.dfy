/** One request as a step of the abstract state (server/MRD_server.cpp:152-198). */
module Commands {
  import opened Bytes
  import opened Codec
  import opened Spec

  /** The C library's toupper in its default locale, byte by byte. */
  function Upper(w: Str): (u: Str)
    ensures |u| == |w|
  {
    seq(|w|, i requires 0 <= i < |w| => if 97 <= w[i] <= 122 then w[i] - 32 else w[i])
  }

  /** The command that ends the main loop. */
  predicate IsSdie(w: seq<Str>) {
    |w| > 0 && Upper(w[0]) == Ascii("SDIE")
  }

  lemma SdieIsAlone()
    ensures Ascii("SDIE") !in {Ascii("GET"), Ascii("SET"), Ascii("DEL"), Ascii("ZADD"), Ascii("ZREM"),
                               Ascii("ZQUERYGE"), Ascii("ZQUERYLE"), Ascii("ZCOUNT"), Ascii("ZRANK"),
                               Ascii("EXPIRE"), Ascii("TTL"), Ascii("ECHO")}
  {
    assert Ascii("SDIE")[0] == 83 && Ascii("ZADD")[0] == Ascii("ZREM")[0] == 90 && Ascii("ECHO")[0] == 69;
  }

  /** The names of commands with the same number of words are different, and ECHO is none of them. */
  lemma CommandsDiffer()
    ensures Ascii("GET") != Ascii("DEL") && Ascii("TTL") !in {Ascii("GET"), Ascii("DEL")}
    ensures Ascii("ZREM") != Ascii("SET") && Ascii("ZRANK") !in {Ascii("SET"), Ascii("ZREM")}
    ensures Ascii("EXPIRE") !in {Ascii("SET"), Ascii("ZREM"), Ascii("ZRANK")}
    ensures Ascii("ZADD") != Ascii("ZCOUNT") && Ascii("ZQUERYGE") != Ascii("ZQUERYLE")
    ensures Ascii("ECHO") !in {Ascii("GET"), Ascii("SET"), Ascii("DEL"), Ascii("ZADD"), Ascii("ZREM"),
                               Ascii("ZQUERYGE"), Ascii("ZQUERYLE"), Ascii("ZCOUNT"), Ascii("ZRANK"),
                               Ascii("EXPIRE"), Ascii("TTL")}
  {
    assert Ascii("GET")[0] == 71 && Ascii("DEL")[0] == 68 && Ascii("TTL")[0] == 84;
    assert Ascii("ZREM")[1] == 82 && Ascii("ZADD")[1] == 65 && Ascii("ECHO")[1] == 67;
    assert Ascii("ZQUERYGE")[6] == 71 && Ascii("ZQUERYLE")[6] == 76;
  }

  function Answer(p: (State, Reply)): (State, Outcome) {
    (p.0, Replied(p.1))
  }

  /** ZRANK answers with a rank and gives the key a new lifetime. */
  ghost predicate ZRankStep(s: State, k: Str, name: Str, now: nat, o: Outcome, s': State) {
    if !IsSet(s, k) then s' == s && o == Replied(NoSet(s, k, Ascii("zqueryge")))
    else
      && s' == s[k := s[k].(deadline := Some(now + DEFAULT_TTL_MS))]
      && o.Replied? && o.reply.Int? && ZRankMay(s[k].val.m, name, o.reply.v)
  }

  /** What the command `w` with the upper-case name `name` may do. Only ZRANK leaves a choice. */
  ghost predicate Dispatch(lib: Library, s: State, name: Str, w: seq<Str>, now: nat, o: Outcome, s': State)
    requires w != []
  {
    if |w| == 2 && name == Ascii("GET") then (s', o) == (s, Get(s, w[1]))
    else if |w| == 3 && name == Ascii("SET") then (s', o) == Answer(SetCmd(s, w[1], w[2], now))
    else if |w| == 2 && name == Ascii("DEL") then (s', o) == Answer(DelCmd(s, w[1]))
    else if |w| == 4 && name == Ascii("ZADD") then (s', o) == Answer(ZAdd(s, w[1], lib.stod(w[2]), w[3], now))
    else if |w| == 3 && name == Ascii("ZREM") then (s', o) == Answer(ZRem(s, w[1], w[2]))
    else if |w| == 6 && name == Ascii("ZQUERYGE") then (s', o) == (s, Replied(ZQuery(lib, s, w, true)))
    else if |w| == 6 && name == Ascii("ZQUERYLE") then (s', o) == (s, Replied(ZQuery(lib, s, w, false)))
    else if |w| == 4 && name == Ascii("ZCOUNT") then (s', o) == (s, ZCount(lib, s, w))
    else if |w| == 3 && name == Ascii("ZRANK") then ZRankStep(s, w[1], w[2], now, o, s')
    else if |w| == 3 && name == Ascii("EXPIRE") then (s', o) == Answer(Expire(s, w[1], lib.stoi(w[2]), now))
    else if |w| == 2 && name == Ascii("TTL") then (s', o) == (s, Ttl(s, w[1]))
    else if name == Ascii("ECHO") then (s', o) == (s, Replied(Text(EchoText(w[1..]))))
    else if name == Ascii("SDIE") then (s', o) == (s, Replied(Text(Ascii("killing server"))))
    else (s', o) == (s, Replied(Err(ERR_NOT_FOUND, Ascii("command not found"))))
  }

  /** The step that the request `w` takes at time `now`. A request without words reads the first of no
      words, which is not defined. */
  ghost predicate Step(lib: Library, s: State, w: seq<Str>, now: nat, o: Outcome, s': State)
  {
    if w == [] then (s', o) == (s, Crashed) else Dispatch(lib, s, Upper(w[0]), w, now, o, s')
  }
}
