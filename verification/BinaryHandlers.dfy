/** The binary protocol's request loop and handlers: they send requests to the cache and write responses. */
module BinaryHandlers {
  import opened Basics
  import opened BinaryFrames
  import opened BinaryServer
  import opened BinarySessions
  import opened Clients
  import Counters
  import Decimal
  import ExpirationTimes
  import opened Sessions
  import Shard
  import opened Streams
  import TextSessions

  /** Writes a response with a status and nothing else. */
  method SendBare(writer: Writer, f: Frame, status: nat)
    modifies writer
    ensures writer.output == old(writer.output) + PrintAll(RESPONSE_MAGIC, [Bare(f, status)])
  {
    SendBinaryResponse(writer, f, status, [], [], [], 0);
    PrintOne(Bare(f, status));
  }

  lemma PrintOne(f: Frame)
    ensures PrintAll(RESPONSE_MAGIC, [f]) == Print(RESPONSE_MAGIC, f)
  {
    assert [f][1..] == [];
  }

  method SendOne(writer: Writer, f: Frame, status: nat, extras: Bytes, key: Bytes, value: Bytes, cas: nat)
    modifies writer
    ensures writer.output ==
            old(writer.output) + PrintAll(RESPONSE_MAGIC, [ResponseTo(f, status, extras, key, value, cas)])
  {
    SendBinaryResponse(writer, f, status, extras, key, value, cas);
    PrintOne(ResponseTo(f, status, extras, key, value, cas));
  }

  /** The TTL that a request asks for in a field of its extras. */
  method ReadTtl(client: Client, field: Bytes) returns (ttl: int)
    requires client.Valid()
    ensures ttl == TtlIn(field, Next(client.env, client.View()).now)
  {
    ttl := ExpirationTimes.BinaryTtl(FromBigEndian(field), client.env.schedule(client.asked).now);
  }

  method HandleBinaryStorage(client: Client, writer: Writer, f: Frame)
    requires client.Valid() && f.cas < TWO_TO_THE_64
    modifies client, writer
    ensures client.Valid()
    ensures var (after, responses) := ServeStore(client.env, old(client.View()), f);
            client.View() == after && writer.output == old(writer.output) + PrintAll(RESPONSE_MAGIC, responses)
  {
    if |f.extras| != 8 {
      SendBare(writer, f, INVALID_ARGS);
      return;
    }
    var ttl := ReadTtl(client, f.extras[4..8]);
    assert f.extras[4..8] == f.extras[4..];
    var answer;
    if f.cas > 0 {
      answer := client.Ask(Shard.Request(Shard.Cas, f.key, f.value, ttl, f.cas, 0));
    } else if f.opcode == SET {
      answer := client.Ask(Shard.Request(Shard.Set, f.key, f.value, ttl, 0, 0));
    } else if f.opcode == ADD {
      answer := client.Ask(Shard.Request(Shard.Add, f.key, f.value, ttl, 0, 0));
    } else {
      answer := client.Ask(Shard.Request(Shard.Replace, f.key, f.value, ttl, 0, 0));
    }
    SendTokenOr(writer, f, answer, ITEM_NOT_STORED);
  }

  method SendTokenOr(writer: Writer, f: Frame, answer: Shard.Response, status: nat)
    modifies writer
    ensures writer.output == old(writer.output) + PrintAll(RESPONSE_MAGIC, [TokenOr(f, answer, status)])
  {
    if answer.err != Shard.NoError {
      SendBare(writer, f, status);
      return;
    }
    SendOne(writer, f, SUCCESS, [], [], [], answer.cas);
  }

  method HandleBinaryGet(client: Client, writer: Writer, f: Frame, withKey: bool, quiet: bool)
    requires client.Valid()
    requires withKey == (f.opcode == GETK || f.opcode == GETKQ) && quiet == (f.opcode == GETQ || f.opcode == GETKQ)
    modifies client, writer
    ensures client.Valid()
    ensures var (after, responses) := ServeGet(client.env, old(client.View()), f);
            client.View() == after && writer.output == old(writer.output) + PrintAll(RESPONSE_MAGIC, responses)
  {
    var answer := client.Ask(TextSessions.KeyRequest(Shard.Get, f.key));
    if answer.err != Shard.NoError {
      if quiet {
        assert writer.output + [] == writer.output;
        return;
      }
      SendBare(writer, f, KEY_NOT_FOUND);
      return;
    }
    SendOne(writer, f, SUCCESS, [0, 0, 0, answer.flags % 0x100], if withKey then f.key else [], answer.value,
            answer.cas);
  }

  method HandleBinaryDelete(client: Client, writer: Writer, f: Frame)
    requires client.Valid()
    modifies client, writer
    ensures client.Valid()
    ensures var (after, responses) := ServeDelete(client.env, old(client.View()), f);
            client.View() == after && writer.output == old(writer.output) + PrintAll(RESPONSE_MAGIC, responses)
  {
    var answer := client.Ask(TextSessions.KeyRequest(Shard.Delete, f.key));
    SendBare(writer, f, if answer.err == Shard.NoError then SUCCESS else KEY_NOT_FOUND);
  }

  method HandleBinaryIncrDecr(client: Client, writer: Writer, f: Frame)
    requires client.Valid()
    modifies client, writer
    ensures client.Valid()
    ensures var (after, responses) := ServeCount(client.env, old(client.View()), f);
            client.View() == after && writer.output == old(writer.output) + PrintAll(RESPONSE_MAGIC, responses)
  {
    if |f.extras| < 20 {
      SendBare(writer, f, INVALID_ARGS);
      return;
    }
    var delta := Number64(f.extras[..8]);
    var answer := client.Ask(TextSessions.CountRequest(f.key, delta, f.opcode == INCREMENT));
    var val := Counters.DecodeReply(answer.value);
    if answer.err != Shard.NoError {
      SendBare(writer, f, INVALID_ARGS);
      return;
    }
    var body := new byte[8];
    PutBigEndian(body, 0, 8, val);
    assert body[..] == body[0..8];
    SendOne(writer, f, SUCCESS, [], [], body[..], answer.cas);
  }

  method HandleBinaryFlush(client: Client, writer: Writer, f: Frame)
    requires client.Valid()
    modifies client, writer
    ensures client.Valid()
    ensures client.View() == FlushFrom(client.env, old(client.View()), 0)
    ensures writer.output == old(writer.output) + PrintAll(RESPONSE_MAGIC, [Bare(f, SUCCESS)])
  {
    client.FlushAll();
    SendBare(writer, f, SUCCESS);
  }

  method HandleBinaryAppendPrepend(client: Client, writer: Writer, f: Frame)
    requires client.Valid()
    modifies client, writer
    ensures client.Valid()
    ensures var (after, responses) := ServeExtension(client.env, old(client.View()), f);
            client.View() == after && writer.output == old(writer.output) + PrintAll(RESPONSE_MAGIC, responses)
  {
    if |f.extras| != 0 {
      SendBare(writer, f, INVALID_ARGS);
      return;
    }
    var answer := client.Ask(ExtendRequest(f));
    SendTokenOr(writer, f, answer, ITEM_NOT_STORED);
  }

  lemma TwoPrinted(before: Bytes, f: Frame, g: Frame)
    ensures before + PrintAll(RESPONSE_MAGIC, [f]) + PrintAll(RESPONSE_MAGIC, [g])
            == before + PrintAll(RESPONSE_MAGIC, [f, g])
  {
    PrintAllConcat([f], [g]);
    assert [f] + [g] == [f, g];
  }

  method HandleBinaryStats(client: Client, writer: Writer, f: Frame)
    requires client.Valid()
    modifies writer
    ensures writer.output == old(writer.output) + PrintAll(RESPONSE_MAGIC, StatResponses(client.View(), f))
  {
    var count := client.Count();
    ghost var before, item := writer.output, StatResponses(client.View(), f)[0];
    SendOne(writer, f, SUCCESS, [], TextSessions.Ascii(CURR_ITEMS), Decimal.Format(count), 0);
    SendBare(writer, f, SUCCESS);
    TwoPrinted(before, item, Bare(f, SUCCESS));
  }

  lemma {:induction false} PrintAllConcat(frames: seq<Frame>, more: seq<Frame>)
    ensures PrintAll(RESPONSE_MAGIC, frames + more) ==
            PrintAll(RESPONSE_MAGIC, frames) + PrintAll(RESPONSE_MAGIC, more)
  {
    if frames == [] {
      assert frames + more == more;
    } else {
      PrintAllConcat(frames[1..], more);
      assert (frames + more)[1..] == frames[1..] + more;
    }
  }

  method HandleBinaryTouch(client: Client, writer: Writer, f: Frame)
    requires client.Valid() && f.opcode == TOUCH
    modifies client, writer
    ensures client.Valid()
    ensures var (after, responses) := ServeTouch(client.env, old(client.View()), f);
            client.View() == after && writer.output == old(writer.output) + PrintAll(RESPONSE_MAGIC, responses)
  {
    if |f.extras| != 4 {
      SendBare(writer, f, INVALID_ARGS);
      return;
    }
    var ttl := ReadTtl(client, f.extras);
    var answer := client.Ask(TextSessions.TouchRequest(f.key, ttl));
    SendTokenOr(writer, f, answer, KEY_NOT_FOUND);
  }

  method HandleBinaryGat(client: Client, writer: Writer, f: Frame)
    requires client.Valid() && (f.opcode == GAT || f.opcode == GATK)
    modifies client, writer
    ensures client.Valid()
    ensures var (after, responses) := ServeTouch(client.env, old(client.View()), f);
            client.View() == after && writer.output == old(writer.output) + PrintAll(RESPONSE_MAGIC, responses)
  {
    if |f.extras| != 4 {
      SendBare(writer, f, INVALID_ARGS);
      return;
    }
    var ttl := ReadTtl(client, f.extras);
    var token := client.Ask(TextSessions.TouchRequest(f.key, ttl));
    if token.err != Shard.NoError {
      SendBare(writer, f, KEY_NOT_FOUND);
      return;
    }
    var answer := client.Ask(TextSessions.KeyRequest(Shard.Get, f.key));
    if answer.err != Shard.NoError {
      SendBare(writer, f, KEY_NOT_FOUND);
      return;
    }
    SendOne(writer, f, SUCCESS, [0, 0, 0, 0], if f.opcode == GATK then f.key else [], answer.value, token.cas);
  }

  /** Serves one request. */
  method HandleRequest(client: Client, writer: Writer, f: Frame)
    requires client.Valid() && f.cas < TWO_TO_THE_64
    modifies client, writer
    ensures client.Valid()
    ensures var (after, responses) := Respond(client.env, old(client.View()), f);
            client.View() == after && writer.output == old(writer.output) + PrintAll(RESPONSE_MAGIC, responses)
  {
    if f.opcode == SET || f.opcode == ADD || f.opcode == REPLACE {
      HandleBinaryStorage(client, writer, f);
    } else if f.opcode == DELETE {
      HandleBinaryDelete(client, writer, f);
    } else if f.opcode == INCREMENT || f.opcode == DECREMENT {
      HandleBinaryIncrDecr(client, writer, f);
    } else if f.opcode == FLUSH {
      HandleBinaryFlush(client, writer, f);
    } else if f.opcode == GET || f.opcode == GETQ {
      HandleBinaryGet(client, writer, f, false, f.opcode == GETQ);
    } else if f.opcode == GETK || f.opcode == GETKQ {
      HandleBinaryGet(client, writer, f, true, f.opcode == GETKQ);
    } else if f.opcode == VERSION {
      SendOne(writer, f, SUCCESS, [], [], TextSessions.Ascii("1.0.0"), 0);
    } else if f.opcode == NOOP {
      SendBare(writer, f, SUCCESS);
    } else if f.opcode == APPEND || f.opcode == PREPEND {
      HandleBinaryAppendPrepend(client, writer, f);
    } else if f.opcode == STAT {
      HandleBinaryStats(client, writer, f);
    } else if f.opcode == TOUCH {
      HandleBinaryTouch(client, writer, f);
    } else if f.opcode == GAT || f.opcode == GATK {
      HandleBinaryGat(client, writer, f);
    } else {
      SendBare(writer, f, UNKNOWN_COMMAND);
    }
  }

  // ---------- The request loop ----------

  /** The connection has served these requests: the cache and the output say so. */
  ghost predicate Exchanged(client: Client, writer: Writer, start: Session, before: Bytes, frames: seq<Frame>)
    reads client, writer
  {
    && client.Valid() && Width(start.backend) > 0 && AllTokens(frames)
    && client.View() == Exchange(client.env, start, frames).0
    && writer.output == before + PrintAll(RESPONSE_MAGIC, Exchange(client.env, start, frames).1)
  }

  /** What is left to serve after a request. */
  lemma LeftAfterRequest(s: Bytes, frames: seq<Frame>)
    requires InBounds(s)
    ensures match Parse(REQUEST_MAGIC, s)
            case Got(f, rest) =>
              && f.cas < TWO_TO_THE_64 && |rest| < |s|
              && (if f.opcode == QUIT then frames + Served(s) == frames
                  else InBounds(rest) && frames + Served(s) == frames + [f] + Served(rest))
            case Overrun => false
            case _ => frames + Served(s) == frames
  {
    if Parse(REQUEST_MAGIC, s).Got? {
      PrintParse(REQUEST_MAGIC, s);
    }
  }

  /** The exchange so far, and one more request. */
  lemma OneMoreRequest(env: Env, start: Session, frames: seq<Frame>, f: Frame, before: Bytes)
    requires Width(start.backend) > 0 && AllTokens(frames) && f.cas < TWO_TO_THE_64
    ensures AllTokens(frames + [f])
    ensures var (served, responses) := Exchange(env, start, frames);
            var (after, more) := Respond(env, served, f);
            && Exchange(env, start, frames + [f]) == (after, responses + more)
            && before + PrintAll(RESPONSE_MAGIC, responses) + PrintAll(RESPONSE_MAGIC, more)
               == before + PrintAll(RESPONSE_MAGIC, responses + more)
  {
    assert (frames + [f])[..|frames|] == frames;
    var (served, responses) := Exchange(env, start, frames);
    PrintedOn(before, responses, Respond(env, served, f).1);
  }

  lemma PrintedOn(before: Bytes, frames: seq<Frame>, more: seq<Frame>)
    ensures before + PrintAll(RESPONSE_MAGIC, frames) + PrintAll(RESPONSE_MAGIC, more)
            == before + PrintAll(RESPONSE_MAGIC, frames + more)
  {
    PrintAllConcat(frames, more);
  }

  /** Receives a request and serves it. */
  method TakeRequest(client: Client, reader: Reader, writer: Writer, header: array<byte>, pools: BodyPools,
                     ghost start: Session, ghost before: Bytes, ghost frames: seq<Frame>)
    returns (over: bool, ghost now: seq<Frame>)
    requires Exchanged(client, writer, start, before, frames) && InBounds(reader.rest)
    requires pools.Valid() && header.Length == HEADER_LENGTH && header !in pools.Buffers()
    modifies client, reader, writer, header, pools, pools.Buffers()
    ensures pools.Valid() && forall b :: b in pools.Buffers() ==> b in old(pools.Buffers()) || fresh(b)
    ensures Exchanged(client, writer, start, before, now)
    ensures if over then now == frames + Served(old(reader.rest))
            else
              && |reader.rest| < |old(reader.rest)| && InBounds(reader.rest)
              && now + Served(reader.rest) == frames + Served(old(reader.rest))
  {
    LeftAfterRequest(reader.rest, frames);
    var request := ReceiveRequest(reader, header, pools);
    if request.None? || request.value.opcode == QUIT {
      return true, frames;
    }
    OneMoreRequest(client.env, start, frames, request.value, before);
    HandleRequest(client, writer, request.value);
    over, now := false, frames + [request.value];
  }

  /** Serves requests until a quit, a bad magic byte or the end, whatever the pooled buffers held before. */
  method HandleBinary(client: Client, reader: Reader, writer: Writer, pools: BodyPools)
    requires client.Valid() && pools.Valid() && InBounds(reader.rest)
    modifies client, reader, writer, pools, pools.Buffers()
    ensures pools.Valid()
    ensures Exchanged(client, writer, old(client.View()), old(writer.output), Served(old(reader.rest)))
  {
    ghost var start, before, frames: seq<Frame> := client.View(), writer.output, [];
    ghost var stream := reader.rest;
    assert writer.output + [] == writer.output;
    var header, over := new byte[HEADER_LENGTH], false;
    while !over
      invariant pools.Valid() && fresh(header) && header !in pools.Buffers()
      invariant forall b :: b in pools.Buffers() ==> b in old(pools.Buffers()) || fresh(b)
      invariant Exchanged(client, writer, start, before, frames)
      invariant if over then frames == Served(stream)
                else InBounds(reader.rest) && frames + Served(reader.rest) == Served(stream)
      decreases !over, |reader.rest|
    {
      over, frames := TakeRequest(client, reader, writer, header, pools, start, before, frames);
    }
  }
}
