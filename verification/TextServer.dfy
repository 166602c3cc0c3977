/**
  The text protocol as the server runs it: the command loop and its handlers. They take data blocks
  from the reader, send requests to the cache and write replies.
 */
module TextServer {
  import opened Basics
  import opened Clients
  import Counters
  import opened Decimal
  import opened ExpirationTimes
  import opened Sessions
  import Shard
  import opened Streams
  import opened TextCommands
  import opened TextReplies
  import opened TextSessions
  import opened Words

  // ---------- Commands with data ----------

  /** Reads a data block and its line end into an array of its own. */
  method ReadBlock(reader: Reader, n: nat) returns (data: Option<Bytes>)
    modifies reader
    ensures (data, reader.rest) == Block(old(reader.rest), n)
  {
    var value := new byte[n];
    var ok := reader.ReadFull(value, n);
    if !ok {
      return None;
    }
    assert value[..] == value[..n];
    data := Some(value[..]);
    ghost var left := reader.rest;
    assert |left| >= 2 ==> left[1..][1..] == left[2..];
    var c := reader.ReadByte();
    if c == RETURN {
      c := reader.ReadByte();
    }
  }

  /** Reads what a SET, ADD or REPLACE line announces. */
  method ReadStorage(reader: Reader, words: seq<Bytes>, op: Shard.Op) returns (call: Call)
    requires !ServeStorage(op, words, reader.rest).0.BadCount?
    modifies reader
    ensures (call, reader.rest) == ServeStorage(op, words, old(reader.rest))
  {
    if |words| < 5 {
      return BadFormat;
    }
    var flags, exptime, count := ParseUint(words[2], TWO_TO_THE_32), ParseInt(words[3]), ParseInt(words[4]);
    if flags.None? || exptime.None? || count.None? {
      return BadFormat;
    }
    if count.value > MAX_VALUE_SIZE {
      var discard := new byte[count.value];
      var ok := reader.ReadFull(discard, count.value);
      var c := reader.ReadByte();
      c := reader.ReadByte();
      return TooLarge;
    }
    var data := ReadBlock(reader, count.value);
    if data.None? {
      return ReadError;
    }
    call := Store(op, words[1], exptime.value, data.value, 0, |words| > 5 && words[5] == NOREPLY);
  }

  /** Reads what a CAS line announces; the block is taken before the token is looked at. */
  method ReadCas(reader: Reader, words: seq<Bytes>) returns (call: Call)
    requires !ServeCas(words, reader.rest).0.BadCount?
    modifies reader
    ensures (call, reader.rest) == ServeCas(words, old(reader.rest))
  {
    if |words| < 5 {
      return BadFormat;
    }
    var flags, exptime, count := ParseUint(words[2], TWO_TO_THE_32), ParseInt(words[3]), ParseInt(words[4]);
    if flags.None? || exptime.None? || count.None? {
      return BadFormat;
    }
    var data := ReadBlock(reader, count.value);
    if data.None? {
      return ReadError;
    }
    if |words| < 6 {
      return BadFormat;
    }
    var token := ParseUint(words[5], TWO_TO_THE_64);
    if token.None? {
      return BadFormat;
    }
    call := Store(Shard.Cas, words[1], exptime.value, data.value, token.value, |words| > 6 && words[6] == NOREPLY);
  }

  /** Reads what an APPEND or PREPEND line announces. */
  method ReadExtension(reader: Reader, words: seq<Bytes>, op: Shard.Op) returns (call: Call)
    requires !ServeExtend(op, words, reader.rest).0.BadCount?
    modifies reader
    ensures (call, reader.rest) == ServeExtend(op, words, old(reader.rest))
  {
    if |words| < 5 {
      return BadFormat;
    }
    var count := ParseInt(words[4]);
    if count.None? {
      return BadFormat;
    }
    var data := ReadBlock(reader, count.value);
    if data.None? {
      return ReadError;
    }
    call := Extend(op, words[1], data.value, |words| > 5 && words[5] == NOREPLY);
  }

  method WriteUnless(writer: Writer, noreply: bool, reply: Bytes)
    modifies writer
    ensures writer.output == old(writer.output) + Unless(noreply, reply)
  {
    if !noreply {
      writer.WriteBytes(reply);
    }
  }

  /** Sends what was read to the cache, and replies. */
  method Execute(client: Client, writer: Writer, call: Call)
    requires client.Valid() && !call.Line? && !call.BadCount?
    modifies client, writer
    ensures client.Valid()
    ensures var (after, reply) := Converse(client.env, old(client.View()), call);
            client.View() == after && writer.output == old(writer.output) + reply
  {
    match call
    case TooLarge => writer.WriteBytes(Say("SERVER_ERROR object too large for cache"));
    case BadFormat => writer.WriteBytes(Say(BAD_FORMAT));
    case ReadError => writer.WriteBytes(Say("SERVER_ERROR read error"));
    case Store(op, key, exptime, data, cas, noreply) =>
      var ttl := TextTtl(exptime, client.env.schedule(client.asked).now);
      var answer := client.Ask(Shard.Request(op, key, data, ttl, cas, 0));
      WriteStored(writer, op, answer.err, noreply);
    case Extend(op, key, data, noreply) =>
      var answer := client.Ask(Shard.Request(op, key, data, 0, 0, 0));
      WriteStored(writer, op, answer.err, noreply);
  }

  method WriteStored(writer: Writer, op: Shard.Op, err: Shard.Error, noreply: bool)
    modifies writer
    ensures writer.output == old(writer.output) + StoredReply(op, err, noreply)
  {
    if err == Shard.NoError {
      WriteUnless(writer, noreply, Say("STORED"));
    } else if op.Cas? && err == Shard.CasMismatch {
      WriteUnless(writer, noreply, Say("EXISTS"));
    } else if op.Cas? && err == Shard.KeyNotFound {
      WriteUnless(writer, noreply, Say("NOT_FOUND"));
    } else if !op.Cas? && (err == Shard.KeyExists || err == Shard.KeyNotFound) {
      WriteUnless(writer, noreply, Say("NOT_STORED"));
    } else {
      writer.WriteBytes(Say("SERVER_ERROR " + ErrorText(err)));
    }
  }

  method HandleTextStorage(client: Client, reader: Reader, writer: Writer, words: seq<Bytes>, op: Shard.Op)
    requires client.Valid() && !ServeStorage(op, words, reader.rest).0.BadCount?
    modifies client, reader, writer
    ensures client.Valid()
    ensures var (call, rest) := ServeStorage(op, words, old(reader.rest));
            var (after, reply) := Converse(client.env, old(client.View()), call);
            reader.rest == rest && client.View() == after && writer.output == old(writer.output) + reply
  {
    var call := ReadStorage(reader, words, op);
    Execute(client, writer, call);
  }

  method HandleTextCas(client: Client, reader: Reader, writer: Writer, words: seq<Bytes>)
    requires client.Valid() && !ServeCas(words, reader.rest).0.BadCount?
    modifies client, reader, writer
    ensures client.Valid()
    ensures var (call, rest) := ServeCas(words, old(reader.rest));
            var (after, reply) := Converse(client.env, old(client.View()), call);
            reader.rest == rest && client.View() == after && writer.output == old(writer.output) + reply
  {
    var call := ReadCas(reader, words);
    Execute(client, writer, call);
  }

  method HandleTextAppendPrepend(client: Client, reader: Reader, writer: Writer, words: seq<Bytes>, op: Shard.Op)
    requires client.Valid() && !ServeExtend(op, words, reader.rest).0.BadCount?
    modifies client, reader, writer
    ensures client.Valid()
    ensures var (call, rest) := ServeExtend(op, words, old(reader.rest));
            var (after, reply) := Converse(client.env, old(client.View()), call);
            reader.rest == rest && client.View() == after && writer.output == old(writer.output) + reply
  {
    var call := ReadExtension(reader, words, op);
    Execute(client, writer, call);
  }

  // ---------- Commands without data ----------

  /** Gets one more key. */
  method GetOne(client: Client, ghost start: Session, keys: seq<Key>, i: nat, ghost results: seq<Option<Hit>>)
    returns (hit: Option<Hit>)
    requires client.Valid() && i < |keys| && Width(start.backend) > 0
    requires (client.View(), results) == GetAll(client.env, start, keys[..i])
    modifies client
    ensures client.Valid() && (hit.Some? ==> hit.value.key == keys[i])
    ensures (client.View(), results + [hit]) == GetAll(client.env, start, keys[..i + 1])
  {
    assert keys[..i + 1][..i] == keys[..i];
    var answer := client.Ask(KeyRequest(Shard.Get, keys[i]));
    hit := HitOf(keys[i], answer);
  }

  /** Gets keys one after the other, and writes those that are found. */
  method WriteKeys(client: Client, writer: Writer, keys: seq<Key>, withCas: bool)
    requires client.Valid()
    modifies client, writer
    ensures client.Valid()
    ensures var (after, results) := GetAll(client.env, old(client.View()), keys);
            client.View() == after && writer.output == old(writer.output) + PrintHits(Hits(results), withCas)
  {
    ghost var start, before, results: seq<Option<Hit>> := client.View(), writer.output, [];
    for i := 0 to |keys|
      invariant client.Valid()
      invariant (client.View(), results) == GetAll(client.env, start, keys[..i])
      invariant writer.output == before + PrintHits(Hits(results), withCas)
    {
      var hit := GetOne(client, start, keys, i, results);
      WriteFound(writer, before, results, keys[i], hit, withCas);
      results := results + [hit];
    }
    assert keys[..|keys|] == keys;
  }

  /** Ends a reply to GET. */
  method WriteEnd(writer: Writer, ghost before: Bytes, ghost hits: seq<Hit>, withCas: bool)
    requires writer.output == before + PrintHits(hits, withCas)
    modifies writer
    ensures writer.output == before + PrintReply(hits, withCas)
  {
    writer.WriteBytes(END + LINE_END);
    Associative(before, PrintHits(hits, withCas), END + LINE_END);
    Associative(PrintHits(hits, withCas), END, LINE_END);
  }

  method HandleTextGet(client: Client, writer: Writer, words: seq<Bytes>, withCas: bool)
    requires client.Valid() && words != []
    modifies client, writer
    ensures client.Valid()
    ensures var (after, reply) := Perform(client.env, old(client.View()), GetJob(words, withCas));
            client.View() == after && writer.output == old(writer.output) + reply
  {
    if |words| < 2 {
      writer.WriteBytes(Say("ERROR"));
      return;
    }
    ghost var before, results := writer.output, GetAll(client.env, client.View(), words[1..]).1;
    WriteKeys(client, writer, words[1..], withCas);
    WriteEnd(writer, before, Hits(results), withCas);
  }

  /** Writes one more key if it was found. */
  method WriteFound(writer: Writer, ghost before: Bytes, ghost results: seq<Option<Hit>>, key: Key, hit: Option<Hit>,
                    withCas: bool)
    requires writer.output == before + PrintHits(Hits(results), withCas) && (hit.Some? ==> hit.value.key == key)
    modifies writer
    ensures writer.output == before + PrintHits(Hits(results + [hit]), withCas)
  {
    OneMoreHit(results, hit, withCas);
    if hit.Some? {
      WriteHit(writer, key, hit.value, withCas);
      Associative(before, PrintHits(Hits(results), withCas), PrintHit(hit.value, withCas));
    }
  }

  /** Gets one more key, and touches it if it was found. */
  method GetAndTouchOne(client: Client, ghost start: Session, keys: seq<Key>, i: nat, ttl: int,
                        ghost results: seq<Option<Hit>>)
    returns (hit: Option<Hit>)
    requires client.Valid() && i < |keys| && Width(start.backend) > 0
    requires (client.View(), results) == GetAndTouchAll(client.env, start, keys[..i], ttl)
    modifies client
    ensures client.Valid() && (hit.Some? ==> hit.value.key == keys[i])
    ensures (client.View(), results + [hit]) == GetAndTouchAll(client.env, start, keys[..i + 1], ttl)
  {
    assert keys[..i + 1][..i] == keys[..i];
    var answer := client.Ask(KeyRequest(Shard.Get, keys[i]));
    hit := HitOf(keys[i], answer);
    if answer.err == Shard.NoError {
      answer := client.Ask(TouchRequest(keys[i], ttl));
    }
  }

  /** Gets and touches keys one after the other, and writes those that are found. */
  method WriteTouchedKeys(client: Client, writer: Writer, keys: seq<Key>, ttl: int, withCas: bool)
    requires client.Valid()
    modifies client, writer
    ensures client.Valid()
    ensures var (after, results) := GetAndTouchAll(client.env, old(client.View()), keys, ttl);
            client.View() == after && writer.output == old(writer.output) + PrintHits(Hits(results), withCas)
  {
    ghost var start, before, results: seq<Option<Hit>> := client.View(), writer.output, [];
    for i := 0 to |keys|
      invariant client.Valid()
      invariant (client.View(), results) == GetAndTouchAll(client.env, start, keys[..i], ttl)
      invariant writer.output == before + PrintHits(Hits(results), withCas)
    {
      var hit := GetAndTouchOne(client, start, keys, i, ttl, results);
      WriteFound(writer, before, results, keys[i], hit, withCas);
      results := results + [hit];
    }
    assert keys[..|keys|] == keys;
  }

  method HandleGatKeys(client: Client, writer: Writer, exptime: int, keys: seq<Key>, withCas: bool)
    requires client.Valid()
    modifies client, writer
    ensures client.Valid()
    ensures var (after, reply) := Perform(client.env, old(client.View()), GetAndTouch(exptime, keys, withCas));
            client.View() == after && writer.output == old(writer.output) + reply
  {
    ghost var before, start := writer.output, client.View();
    var ttl := TextTtl(exptime, client.env.schedule(client.asked).now);
    WriteTouchedKeys(client, writer, keys, ttl, withCas);
    ghost var (after, results) := GetAndTouchAll(client.env, start, keys, ttl);
    WriteEnd(writer, before, Hits(results), withCas);
    assert Perform(client.env, start, GetAndTouch(exptime, keys, withCas))
        == (after, PrintReply(Hits(results), withCas));
  }

  method HandleTextGat(client: Client, writer: Writer, words: seq<Bytes>, withCas: bool)
    requires client.Valid() && words != []
    modifies client, writer
    ensures client.Valid()
    ensures var (after, reply) := Perform(client.env, old(client.View()), GatJob(words, withCas));
            client.View() == after && writer.output == old(writer.output) + reply
  {
    if |words| < 3 {
      writer.WriteBytes(Say("ERROR"));
      return;
    }
    var exptime := ParseInt(words[1]);
    if exptime.None? {
      writer.WriteBytes(Say(BAD_FORMAT));
      return;
    }
    HandleGatKeys(client, writer, exptime.value, words[2..], withCas);
  }

  method HandleTextDelete(client: Client, writer: Writer, words: seq<Bytes>)
    requires client.Valid()
    modifies client, writer
    ensures client.Valid()
    ensures var (after, reply) := Perform(client.env, old(client.View()), DeleteJob(words));
            client.View() == after && writer.output == old(writer.output) + reply
  {
    if |words| < 2 {
      writer.WriteBytes(Say(BAD_FORMAT));
      return;
    }
    var answer := client.Ask(KeyRequest(Shard.Delete, words[1]));
    WriteUnless(writer, |words| > 2 && words[2] == NOREPLY,
                Say(if answer.err == Shard.NoError then "DELETED" else "NOT_FOUND"));
  }

  method HandleTextIncrDecr(client: Client, writer: Writer, words: seq<Bytes>, incr: bool)
    requires client.Valid()
    modifies client, writer
    ensures client.Valid()
    ensures var (after, reply) := Perform(client.env, old(client.View()), CountJob(words, incr));
            client.View() == after && writer.output == old(writer.output) + reply
  {
    if |words| < 3 {
      writer.WriteBytes(Say(BAD_FORMAT));
      return;
    }
    var delta := ParseUint(words[2], TWO_TO_THE_64);
    if delta.None? {
      writer.WriteBytes(Say("CLIENT_ERROR invalid numeric delta argument"));
      return;
    }
    var noreply := |words| > 3 && words[3] == NOREPLY;
    var answer := client.Ask(CountRequest(words[1], delta.value, incr));
    var val := Counters.DecodeReply(answer.value);
    if answer.err == Shard.KeyNotFound {
      WriteUnless(writer, noreply, Say("NOT_FOUND"));
    } else if answer.err != Shard.NoError {
      writer.WriteBytes(Say("CLIENT_ERROR " + ErrorText(answer.err)));
    } else {
      WriteUnless(writer, noreply, Format(val) + LINE_END);
    }
  }

  method HandleTextTouch(client: Client, writer: Writer, words: seq<Bytes>)
    requires client.Valid()
    modifies client, writer
    ensures client.Valid()
    ensures var (after, reply) := Perform(client.env, old(client.View()), TouchJob(words));
            client.View() == after && writer.output == old(writer.output) + reply
  {
    if |words| < 3 {
      writer.WriteBytes(Say(BAD_FORMAT));
      return;
    }
    var ttl := TextTtl(ParseClamped(words[2]), client.env.schedule(client.asked).now);
    var answer := client.Ask(TouchRequest(words[1], ttl));
    var noreply := |words| > 3 && words[3] == NOREPLY;
    if answer.err != Shard.NoError {
      WriteUnless(writer, noreply, if answer.err == Shard.KeyNotFound then Say("NOT_FOUND")
                                   else Say("SERVER_ERROR " + ErrorText(answer.err)));
    } else {
      WriteUnless(writer, noreply, Say("TOUCHED"));
    }
  }

  method HandleTextFlushAll(client: Client, writer: Writer, words: seq<Bytes>)
    requires client.Valid() && words != []
    modifies client, writer
    ensures client.Valid()
    ensures var (after, reply) := Perform(client.env, old(client.View()), FlushKeys(NOREPLY in words[1..]));
            client.View() == after && writer.output == old(writer.output) + reply
  {
    var noreply := false;
    for i := 1 to |words|
      invariant noreply == (NOREPLY in words[1..i])
    {
      assert words[1..i + 1] == words[1..i] + [words[i]];
      if words[i] == NOREPLY {
        noreply := true;
      }
    }
    assert words[1..|words|] == words[1..];
    client.FlushAll();
    WriteUnless(writer, noreply, Say("OK"));
  }

  method HandleTextStats(client: Client, writer: Writer)
    requires client.Valid()
    modifies writer
    ensures writer.output == old(writer.output) + ReportOf(client.env, client.View())
  {
    var env, m := client.env, client.env.schedule(client.asked);
    var count := client.Count();
    var report := Ascii("STAT pid ") + Format(env.pid) + LINE_END
                  + Ascii("STAT uptime ") + FormatInt((m.now - env.started) / SECOND) + LINE_END
                  + Ascii("STAT time ") + Format(m.clk.check / SECOND) + LINE_END
                  + Say("STAT version 1.0.0")
                  + Ascii("STAT curr_items ") + Format(count) + LINE_END
                  + Say("END");
    assert report == ReportOf(env, client.View());
    writer.WriteBytes(report);
  }

  /** Serves a command that is a line only. */
  method HandleLine(client: Client, writer: Writer, words: seq<Bytes>)
    requires client.Valid() && words != []
    modifies client, writer
    ensures client.Valid()
    ensures var (after, reply) := Perform(client.env, old(client.View()), JobOf(words));
            client.View() == after && writer.output == old(writer.output) + reply
  {
    var cmd := ToUpper(words[0]);
    if cmd == Ascii("GET") || cmd == Ascii("GETS") {
      HandleTextGet(client, writer, words, cmd == Ascii("GETS"));
    } else if cmd == Ascii("DELETE") {
      HandleTextDelete(client, writer, words);
    } else if cmd == Ascii("INCR") || cmd == Ascii("DECR") {
      HandleTextIncrDecr(client, writer, words, cmd == Ascii("INCR"));
    } else if cmd == Ascii("TOUCH") {
      HandleTextTouch(client, writer, words);
    } else if cmd == Ascii("GAT") || cmd == Ascii("GATS") {
      HandleTextGat(client, writer, words, cmd == Ascii("GATS"));
    } else if cmd == Ascii("FLUSH_ALL") {
      HandleTextFlushAll(client, writer, words);
    } else if cmd == Ascii("VERBOSITY") {
    } else if cmd == Ascii("VERSION") {
      writer.WriteBytes(Say("VERSION 1.0.0"));
    } else if cmd == Ascii("STATS") {
      HandleTextStats(client, writer);
    } else {
      writer.WriteBytes(Say("ERROR"));
    }
  }

  // ---------- The command loop ----------

  /** Serves one command. */
  method HandleCommand(client: Client, reader: Reader, writer: Writer, words: seq<Bytes>)
    requires client.Valid() && words != [] && !Serve(words, reader.rest).0.BadCount?
    modifies client, reader, writer
    ensures client.Valid()
    ensures var (call, rest) := Serve(words, old(reader.rest));
            && (call.Line? ==> call.words != [])
            && var (after, reply) := Converse(client.env, old(client.View()), call);
               reader.rest == rest && client.View() == after && writer.output == old(writer.output) + reply
  {
    match KindOf(words[0])
    case StoreKind(op) => HandleTextStorage(client, reader, writer, words, op);
    case CasKind => HandleTextCas(client, reader, writer, words);
    case ExtendKind(op) => HandleTextAppendPrepend(client, reader, writer, words, op);
    case QuitKind | LineKind => HandleLine(client, writer, words);
  }

  /** The conversation so far, and one more command. */
  lemma OneMoreCall(env: Env, start: Session, calls: seq<Call>, call: Call, earlier: Bytes)
    requires Width(start.backend) > 0 && Callable(calls) && (call.Line? ==> call.words != [])
    ensures Callable(calls + [call])
    ensures var (before, replies) := Talk(env, start, calls);
            var (after, reply) := Converse(env, before, call);
            Talk(env, start, calls + [call]) == (after, replies + reply)
            && earlier + replies + reply == earlier + (replies + reply)
  {
    assert (calls + [call])[..|calls|] == calls;
  }

  /** What one line of the stream brings: nothing, the end, or a command. */
  datatype Turn = Blank | Over | One(call: Call, left: Bytes)

  function TurnOf(line: Bytes, rest: Bytes): (turn: Turn)
    ensures turn.One? ==> |turn.left| <= |rest| && (turn.call.Line? ==> turn.call.words != [])
  {
    var words := Fields(line);
    if words == [] then Blank
    else if KindOf(words[0]).QuitKind? then Over
    else
      ServeTakes(words, rest);
      One(Serve(words, rest).0, Serve(words, rest).1)
  }

  /** The commands of a stream, one turn of the loop at a time. */
  lemma CommandsByTurns(s: Bytes)
    ensures var n := LineLength(s);
            if n.None? then Commands(s) == []
            else
              match TurnOf(s[..n.value], s[n.value..])
              case Blank => Commands(s) == Commands(s[n.value..])
              case Over => Commands(s) == []
              case One(call, left) =>
                Commands(s) == if call.BadCount? then [call] else [call] + Commands(left)
  {
  }

  /** Serves what one line brings. */
  method ServeTurn(client: Client, reader: Reader, writer: Writer, line: Bytes) returns (over: bool)
    requires client.Valid()
    requires var turn := TurnOf(line, reader.rest); turn.One? ==> !turn.call.BadCount?
    modifies client, reader, writer
    ensures client.Valid() && |client.shards| == old(|client.shards|)
    ensures match TurnOf(line, old(reader.rest))
            case Blank => !over && unchanged(client, reader, writer)
            case Over => over && unchanged(client, reader, writer)
            case One(call, left) =>
              var (after, reply) := Converse(client.env, old(client.View()), call);
              && !over && reader.rest == left && client.View() == after
              && writer.output == old(writer.output) + reply
  {
    FieldsOfTrimmed(line);
    var trimmed := TrimSpace(line);
    if trimmed == [] {
      return false;
    }
    var words := Fields(trimmed);
    if KindOf(words[0]).QuitKind? {
      return true;
    }
    HandleCommand(client, reader, writer, words);
    over := false;
  }

  /** The connection has served these commands: the cache and the output say so. */
  ghost predicate Served(client: Client, writer: Writer, start: Session, before: Bytes, calls: seq<Call>)
    reads client, writer
  {
    && client.Valid() && Width(start.backend) > 0 && Callable(calls)
    && client.View() == Talk(client.env, start, calls).0
    && writer.output == before + Talk(client.env, start, calls).1
  }

  /** What is left to serve after a turn. */
  lemma LeftAfterTurn(s: Bytes, n: nat, calls: seq<Call>)
    requires LineLength(s) == Some(n) && BadCount !in Commands(s)
    ensures n <= |s|
    ensures match TurnOf(s[..n], s[n..])
            case Blank => Commands(s) == Commands(s[n..])
            case Over => Commands(s) == []
            case One(call, left) =>
              && !call.BadCount? && BadCount !in Commands(left)
              && calls + Commands(s) == calls + [call] + Commands(left)
  {
    CommandsByTurns(s);
    var turn := TurnOf(s[..n], s[n..]);
    if turn.One? && !turn.call.BadCount? {
      Regroup(calls, turn.call, Commands(turn.left), Commands(s));
    }
  }

  lemma Regroup(calls: seq<Call>, call: Call, later: seq<Call>, all: seq<Call>)
    requires all == [call] + later
    ensures calls + all == calls + [call] + later && forall x :: x in later ==> x in all
  {
  }

  /** Reads a line, and serves what it brings. */
  method TakeTurn(client: Client, reader: Reader, writer: Writer, ghost start: Session, ghost before: Bytes,
                  ghost calls: seq<Call>)
    returns (over: bool, ghost now: seq<Call>)
    requires Served(client, writer, start, before, calls) && BadCount !in Commands(reader.rest)
    modifies client, reader, writer
    ensures Served(client, writer, start, before, now)
    ensures if over then now == calls + Commands(old(reader.rest))
            else
              && |reader.rest| < |old(reader.rest)| && BadCount !in Commands(reader.rest)
              && now + Commands(reader.rest) == calls + Commands(old(reader.rest))
  {
    now := calls;
    ghost var s := reader.rest;
    var line := reader.ReadLine();
    if line.None? {
      assert Commands(s) == [];
      return true, calls;
    }
    LeftAfterTurn(s, |line.value|, calls);
    ghost var turn := TurnOf(line.value, reader.rest);
    if turn.One? {
      OneMoreCall(client.env, start, calls, turn.call, before);
      now := calls + [turn.call];
    }
    over := ServeTurn(client, reader, writer, line.value);
  }

  /** Serves commands until QUIT or the end of the stream. */
  method HandleText(client: Client, reader: Reader, writer: Writer)
    requires client.Valid() && BadCount !in Commands(reader.rest)
    modifies client, reader, writer
    ensures Served(client, writer, old(client.View()), old(writer.output), Commands(old(reader.rest)))
  {
    ghost var start, before, calls: seq<Call> := client.View(), writer.output, [];
    ghost var stream := reader.rest;
    var over := false;
    while !over
      invariant Served(client, writer, start, before, calls)
      invariant if over then calls == Commands(stream)
                else BadCount !in Commands(reader.rest) && calls + Commands(reader.rest) == Commands(stream)
      decreases !over, |reader.rest|
    {
      over, calls := TakeTurn(client, reader, writer, start, before, calls);
    }
  }
}
