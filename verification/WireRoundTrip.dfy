/**
  From the wire through the cache and back: what a client stores with either protocol is what any
  client reads later, byte for byte, unless the cache has dropped it.
 */
module WireRoundTrip {
  import opened Basics
  import opened Shard
  import opened ShardFacts
  import opened Runs
  import opened BinaryFrames
  import opened BinaryMeanings
  import opened BinaryServer
  import BinarySessions
  import Counters
  import opened ExpirationTimes
  import opened Freshness
  import Memory
  import opened Sessions
  import opened Sharding
  import Text = TextCommands
  import opened TextMeanings
  import Replies = TextReplies
  import ReplyStreams
  import TextSessions
  import opened TimedCache
  import Words

  // ---------- In the cache ----------

  predicate Reads(ev: Event, k: Key) {
    ev.Arrive? && ev.req.key == k ==>
      var op := ev.req.op;
      op.Get? || op.Touch? || op.Stats? || op.Delete? || op.FlushAll? || op.Other?
  }

  /** The key's own requests are Gets, touches, deletes and flushes. */
  ghost predicate OnlyRead(evs: seq<Event>, k: Key) {
    forall i :: 0 <= i < |evs| ==> Reads(evs[i], k)
  }

  /** The entry found keeps the value found before. */
  predicate SameValue(before: Option<Entry>, after: Option<Entry>) {
    after.Some? ==> before.Some? && after.value.value == before.value.value
  }

  lemma StepKeepsValueOrDrops(cfg: Config, s: State, ev: Event, k: Key)
    requires UniqueKeys(s.lru) && Reads(ev, k)
    ensures UniqueKeys(Step(cfg, s, ev).lru) && SameValue(Find(s.lru, k), Find(Step(cfg, s, ev).lru, k))
  {
    OtherKeys(cfg, s, ev, k);
    if Find(Step(cfg, s, ev).lru, k).Some? {
      if ev.Arrive? && ev.req.key == k && (ev.req.op.Delete? || ev.req.op.FlushAll? || ev.req.op.Other?) {
        FindAfterWithout(s.lru, k, k);
      } else {
        Counters.StepKeepsValue(cfg, s, ev, k);
      }
    }
  }

  /** While a key is only read, its entry keeps its value or is gone. */
  lemma {:induction false} ValueKept(cfg: Config, s: State, evs: seq<Event>, k: Key)
    requires UniqueKeys(s.lru) && OnlyRead(evs, k)
    ensures UniqueKeys(Run(cfg, s, evs).lru) && SameValue(Find(s.lru, k), Find(Run(cfg, s, evs).lru, k))
  {
    if evs != [] {
      var prefix := evs[..|evs| - 1];
      ValueKept(cfg, s, prefix, k);
      StepKeepsValueOrDrops(cfg, Run(cfg, s, prefix), evs[|evs| - 1], k);
    }
  }

  /** The key's own requests are Gets, and nobody flushes. */
  ghost predicate OnlyGot(evs: seq<Event>, k: Key) {
    forall i :: 0 <= i < |evs| && evs[i].Arrive? ==>
      var op := evs[i].req.op;
      !op.FlushAll? && (evs[i].req.key == k ==> op.Get? || op.Stats? || op.Other?)
  }

  lemma {:induction false} OnlyGotUndisturbed(cfg: Config, s: State, evs: seq<Event>, k: Key)
    requires OnlyGot(evs, k)
    ensures OnlyRead(evs, k) && NotRemoved(evs, k) && Undisturbed(cfg, s, evs, k, false)
  {
    if evs != [] {
      OnlyGotUndisturbed(cfg, s, evs[..|evs| - 1], k);
    }
  }

  /** The clock of a store, of what follows and of a later Get never goes back. */
  ghost predicate InOrder(clk: Clock, evs: seq<Event>, later: Clock) {
    clk.store >= 1_000_000 && Clocked(clk.store, evs) && Now(clk.store, evs) <= later.check
  }

  /**
    What a Get answers some time after a store that went through; and, if nothing evicts, removes or
    touches the key, exactly how long it answers with the value.
   */
  lemma StoredIsAnswered(cfg: Config, s: State, r: Request, clk: Clock, evs: seq<Event>, k: Key, later: Clock)
    requires UniqueKeys(s.lru) && r.key == k && OnlyRead(evs, k)
    requires r.op.Set? || r.op.Add? || r.op.Replace? || r.op.Cas?
    requires Handle(cfg, s, r, clk).1.err == NoError
    ensures var answer := HandleGet(Run(cfg, Step(cfg, s, Arrive(r, clk)), evs), k, later.check).1;
            && (if answer.err == NoError then answer.value == r.value && 0 <= answer.flags <= 3
                else answer.err == KeyNotFound)
            && (cfg.maxMemory <= 0 && OnlyGot(evs, k) && InOrder(clk, evs, later) ==>
                  (answer.err == NoError <==> Lives(cfg, r.ttl, clk.store, later.check)))
  {
    SetFind(cfg, s, k, r.value, r.ttl, clk.store, k);
    ValueKept(cfg, Step(cfg, s, Arrive(r, clk)), evs, k);
    if cfg.maxMemory <= 0 && OnlyGot(evs, k) && InOrder(clk, evs, later) {
      OnlyGotUndisturbed(cfg, Step(cfg, s, Arrive(r, clk)), evs, k);
      FoundUntilHardExpiry(cfg, s, Arrive(r, clk), evs, Arrive(Request(Get, k, [], 0, 0, 0), later), k);
    }
  }

  // ---------- From one session to a later one ----------

  ghost predicate AllUnique(shards: seq<State>) {
    forall i :: 0 <= i < |shards| ==> UniqueKeys(shards[i].lru)
  }

  /** The worker of a key as the next request of a session meets it. */
  function WorkerMet(env: Env, c: Session, k: Key): State
    requires c.backend.Workers? && Width(c.backend) > 0
  {
    RunAll(env.cfg, c.backend.shards, Next(env, c).others)[Home(k, Width(c.backend))]
  }

  lemma WorkerAsked(env: Env, c: Session, r: Request)
    requires c.backend.Workers? && Width(c.backend) > 0
    ensures var (c', answer) := Ask(env, c, r);
            var s, clk := WorkerMet(env, c, r.key), Next(env, c).clk;
            && answer == Handle(env.cfg, s, r, clk).1
            && c'.backend.shards[Home(r.key, Width(c.backend))] == Step(env.cfg, s, Arrive(r, clk))
  {
    var d := Delivery(Home(r.key, Width(c.backend)), Arrive(r, Next(env, c).clk));
    RunAllConcat(env.cfg, c.backend.shards, Next(env, c).others, [d]);
    assert [d][..0] == [];
  }

  /**
    A later session, of the same client or of another: `between` is all that any worker was given after
    the first session.
   */
  ghost predicate Later(env: Env, c: Session, reader: Env, later: Session, between: seq<Delivery>) {
    later.backend == Meet(env.cfg, c.backend, between) && reader.cfg == env.cfg
  }

  /** What happens to the worker of a key between a session and the next request of a later one. */
  function Meanwhile(reader: Env, later: Session, between: seq<Delivery>, k: Key): seq<Event>
    requires Width(later.backend) > 0
  {
    EventsOf(between + Next(reader, later).others, Home(k, Width(later.backend)))
  }

  /** The worker that a later request meets is what the events in between made of it. */
  lemma WorkerLater(env: Env, c: Session, reader: Env, later: Session, between: seq<Delivery>, k: Key)
    requires c.backend.Workers? && Width(c.backend) > 0 && Later(env, c, reader, later, between)
    ensures WorkerMet(reader, later, k) ==
            Run(env.cfg, c.backend.shards[Home(k, Width(c.backend))], Meanwhile(reader, later, between, k))
  {
    RunAllConcat(env.cfg, c.backend.shards, between, Next(reader, later).others);
    ShardsRunAlone(env.cfg, c.backend.shards, between + Next(reader, later).others, Home(k, Width(c.backend)));
  }

  /** How long the value is there for the next request of a later session. */
  predicate StillThere(env: Env, c: Session, ttl: int, reader: Env, later: Session) {
    Lives(env.cfg, ttl, Next(env, c).clk.store, Next(reader, later).clk.check)
  }

  /** Nothing evicts, removes or renews the value in between, and no clock goes back. */
  ghost predicate LeftAlone(env: Env, c: Session, reader: Env, later: Session, between: seq<Delivery>, k: Key)
    requires Width(later.backend) > 0
  {
    var evs := Meanwhile(reader, later, between, k);
    env.cfg.maxMemory <= 0 && OnlyGot(evs, k) && InOrder(Next(env, c).clk, evs, Next(reader, later).clk)
  }

  /** What a Get of a later session is answered after a store that went through. */
  lemma StoredIsServed(env: Env, c: Session, r: Request, reader: Env, later: Session, between: seq<Delivery>)
    requires c.backend.Workers? && Width(c.backend) > 0 && AllUnique(c.backend.shards)
    requires (r.op.Set? || r.op.Add? || r.op.Replace? || r.op.Cas?) && Ask(env, c, r).1.err == NoError
    requires Later(env, Ask(env, c, r).0, reader, later, between)
    requires OnlyRead(Meanwhile(reader, later, between, r.key), r.key)
    ensures var answer := Ask(reader, later, Request(Get, r.key, [], 0, 0, 0)).1;
            && (if answer.err == NoError then answer.value == r.value && 0 <= answer.flags <= 3
                else answer.err == KeyNotFound)
            && (LeftAlone(env, c, reader, later, between, r.key) ==>
                  (answer.err == NoError <==> StillThere(env, c, r.ttl, reader, later)))
  {
    var home, others := Home(r.key, Width(c.backend)), Next(env, c).others;
    WorkerAsked(env, c, r);
    ShardsRunAlone(env.cfg, c.backend.shards, others, home);
    Memory.RunKeepsKeysUnique(env.cfg, c.backend.shards[home], EventsOf(others, home));
    WorkerLater(env, Ask(env, c, r).0, reader, later, between, r.key);
    WorkerAsked(reader, later, Request(Get, r.key, [], 0, 0, 0));
    StoredIsAnswered(env.cfg, WorkerMet(env, c, r.key), r, Next(env, c).clk, Meanwhile(reader, later, between, r.key),
                     r.key, Next(reader, later).clk);
  }

  // ---------- The text protocol ----------

  datatype Reading = Unreadable | Missing | Value(flags: nat, value: Bytes)

  /** What a client reads from the reply to a GET of one key. */
  function ReadingOf(reply: Bytes, k: Key): Reading {
    var read := Replies.ReadReply(reply, false);
    if read == Some(([], [])) then Missing
    else if read.Some? && |read.value.0| == 1 && read.value.0[0].key == k && read.value.1 == [] then
      Value(read.value.0[0].flags, read.value.0[0].value)
    else Unreadable
  }

  /** The reply to a GET of one key, from the cache's answer. */
  function OneReply(k: Key, answer: Response): Bytes {
    Replies.PrintReply(Replies.Hits([TextSessions.HitOf(k, answer)]), false)
  }

  /** A client reads from such a reply what the cache answered. */
  lemma OneReplyRead(k: Key, answer: Response)
    requires Words.IsWord(k) && (answer.err == NoError ==> 0 <= answer.flags <= 3 && |answer.value| < TWO_TO_THE_64)
    ensures ReadingOf(OneReply(k, answer), k) ==
            if answer.err == NoError then Value(answer.flags, answer.value) else Missing
  {
    var hit, reply := TextSessions.HitOf(k, answer), OneReply(k, answer);
    assert reply + [] == reply && [hit][..0] == [];
    if answer.err == NoError {
      assert Replies.Hits([hit]) == [hit.value] && [hit.value][1..] == [];
      Replies.ReplyReadBack([hit.value], [], reply, false);
      assert Replies.AllTold([hit.value], false) == [Replies.Told(hit.value, false)];
    } else {
      assert Replies.Hits([hit]) == [];
      Replies.ReplyReadBack([], [], reply, false);
    }
  }

  lemma GetNamed(words: seq<Bytes>)
    requires |words| == 2 && words[0] == Raw("get")
    ensures TextSessions.JobOf(words) == TextSessions.GetKeys(words[1..], false)
  {
    CapitalsOf(words[0]);
    assert Words.ToUpper(words[0]) == Raw("GET");
    JobNamed(words);
  }

  lemma GetOneKey(env: Env, c: Session, k: Key)
    requires Width(c.backend) > 0
    ensures TextSessions.GetAll(env, c, [k]).1 == [TextSessions.HitOf(k, Ask(env, c, Request(Get, k, [], 0, 0, 0)).1)]
  {
    assert [k][..0] == [];
    assert TextSessions.GetAll(env, c, []) == (c, []);
  }

  lemma GetOneReply(env: Env, c: Session, k: Key)
    requires Width(c.backend) > 0
    ensures TextSessions.Converse(env, c, Text.Line([Raw("get"), k])).1 ==
            OneReply(k, Ask(env, c, Request(Get, k, [], 0, 0, 0)).1)
  {
    var words := [Raw("get"), k];
    assert words[1..] == [k];
    GetNamed(words);
    assert TextSessions.Converse(env, c, Text.Line(words))
        == TextSessions.Perform(env, c, TextSessions.GetKeys([k], false));
    GetOneKey(env, c, k);
  }

  /**
    A client sends a storage command by text and is told STORED; the key is only read for a while; then
    a client gets it, on whatever connection. It finds nothing, or exactly the data that was sent; and
    without a limit and with nobody touching or removing the key, it finds the data exactly as long as
    the command's expiration time says.
   */
  lemma TextStoredIsRead(env: Env, c: Session, cmd: Text.Command, reader: Env, later: Session,
                         between: seq<Delivery>, rest: Bytes)
    requires c.backend.Workers? && Width(c.backend) > 0 && AllUnique(c.backend.shards)
    requires cmd.Storage? && Text.WellFormed(cmd) && |cmd.data| <= Text.MAX_VALUE_SIZE && Text.Intended(cmd).Store?
    requires TextSessions.Converse(env, c, Text.Intended(cmd)).1 == Raw("STORED\r\n")
    requires Later(env, TextSessions.Converse(env, c, Text.Intended(cmd)).0, reader, later, between)
    requires OnlyRead(Meanwhile(reader, later, between, cmd.key), cmd.key)
    ensures Text.Commands(Text.Print(cmd) + rest) == [Text.Intended(cmd)] + Text.Commands(rest)
    ensures var reading := ReadingOf(TextSessions.Converse(reader, later, Text.Line([Raw("get"), cmd.key])).1, cmd.key);
            && (reading == Missing || (reading.Value? && reading.value == cmd.data && reading.flags <= 3))
            && (LeftAlone(env, c, reader, later, between, cmd.key) ==>
                  (reading.Value? <==> StillThere(env, c, TextTtl(cmd.exptime, Next(env, c).now), reader, later)))
  {
    var r := Request(cmd.op, cmd.key, cmd.data, TextTtl(cmd.exptime, Next(env, c).now), 0, 0);
    Text.FirstCommand(cmd, rest, Text.Print(cmd) + rest);
    ToldStored(env, c, cmd, r);
    GetOneReply(reader, later, cmd.key);
    StoredIsServed(env, c, r, reader, later, between);
    OneReplyRead(cmd.key, Ask(reader, later, Request(Get, cmd.key, [], 0, 0, 0)).1);
  }

  /** A client is told STORED only if the store went through. */
  lemma ToldStored(env: Env, c: Session, cmd: Text.Command, r: Request)
    requires c.backend.Workers? && Width(c.backend) > 0 && cmd.Storage? && Text.Sendable(cmd)
    requires Text.Intended(cmd).Store?
    requires r == Request(cmd.op, cmd.key, cmd.data, TextTtl(cmd.exptime, Next(env, c).now), 0, 0)
    ensures TextSessions.Converse(env, c, Text.Intended(cmd)).0 == Ask(env, c, r).0
    ensures TextSessions.Converse(env, c, Text.Intended(cmd)).1 == Raw("STORED\r\n") ==> Ask(env, c, r).1.err == NoError
  {
    WorkerAsked(env, c, r);
    ReplyStreams.StoreErrors(env.cfg, WorkerMet(env, c, r.key), r, Next(env, c).clk);
    StorageTexts();
  }

  // ---------- The binary protocol ----------

  predicate IsGet(f: Frame) {
    f.opcode == GET || f.opcode == GETQ || f.opcode == GETK || f.opcode == GETKQ
  }

  /** A client finds in the responses to its get the key it asked for, if it asked for that, and a value. */
  predicate Finds(asked: Frame, responses: seq<Frame>, value: Bytes) {
    && |responses| == 1 && responses[0].status == SUCCESS && responses[0].value == value
    && responses[0].opcode == asked.opcode && responses[0].opaque32 == asked.opaque32
    && responses[0].key == if asked.opcode == GETK || asked.opcode == GETKQ then asked.key else []
  }

  /** A client finds nothing: a quiet get has no response. */
  predicate FindsNothing(asked: Frame, responses: seq<Frame>) {
    responses == if asked.opcode == GETQ || asked.opcode == GETKQ then [] else [Status(asked, KEY_NOT_FOUND, 0)]
  }

  /** What a client reads of the responses to a get. */
  lemma GetResponsesRead(env: Env, c: Session, asked: Frame)
    requires Width(c.backend) > 0 && Fits(asked) && IsGet(asked)
    ensures var answer := Ask(env, c, Request(Get, asked.key, [], 0, 0, 0)).1;
            var responses := BinarySessions.Respond(env, c, asked).1;
            && (if answer.err == NoError then Finds(asked, responses, answer.value) else FindsNothing(asked, responses))
            && ((answer.err == NoError ==> |asked.key| + |answer.value| + 4 < 0x1_0000_0000) ==>
                  ParseAll(RESPONSE_MAGIC, PrintAll(RESPONSE_MAGIC, responses)) == responses)
  {
    var answer := Ask(env, c, Request(Get, asked.key, [], 0, 0, 0)).1;
    var responses := BinarySessions.Respond(env, c, asked).1;
    if answer.err == NoError ==> |asked.key| + |answer.value| + 4 < 0x1_0000_0000 {
      ParsePrintAll(RESPONSE_MAGIC, responses);
    }
  }

  /**
    The same by the binary protocol: a SET, ADD or REPLACE with an expiry in the last four bytes of its
    extras has a success for its response; later any of the gets finds nothing, or exactly the value.
   */
  lemma BinaryStoredIsRead(env: Env, c: Session, stored: Frame, flags: Bytes, expiry: nat, reader: Env,
                           later: Session, between: seq<Delivery>, asked: Frame, rest: Bytes)
    requires c.backend.Workers? && Width(c.backend) > 0 && AllUnique(c.backend.shards)
    requires 0x01 <= stored.opcode <= 0x03 && Fits(stored) && Fits(asked) && IsGet(asked) && asked.key == stored.key
    requires |flags| == 4 && expiry < 0x1_0000_0000 && stored.extras == flags + BigEndian(expiry, 4)
    requires BinarySessions.Respond(env, c, stored).1[0].status == 0x0000
    requires Later(env, BinarySessions.Respond(env, c, stored).0, reader, later, between)
    requires OnlyRead(Meanwhile(reader, later, between, stored.key), stored.key)
    ensures Served(Print(REQUEST_MAGIC, stored) + rest) == [stored] + Served(rest)
    ensures var responses := BinarySessions.Respond(reader, later, asked).1;
            && (FindsNothing(asked, responses) || Finds(asked, responses, stored.value))
            && (|asked.key| + |stored.value| + 4 < 0x1_0000_0000 ==>
                  ParseAll(RESPONSE_MAGIC, PrintAll(RESPONSE_MAGIC, responses)) == responses)
            && (LeftAlone(env, c, reader, later, between, stored.key) ==>
                  (Finds(asked, responses, stored.value) <==>
                     StillThere(env, c, BinaryTtl(expiry, Next(env, c).now), reader, later)))
  {
    var r := ToldSuccess(env, c, stored, flags, expiry);
    ServedFirst(stored, rest, Print(REQUEST_MAGIC, stored) + rest);
    StoredIsServed(env, c, r, reader, later, between);
    GetResponsesRead(reader, later, asked);
  }

  /** A client is answered success only if the store went through. */
  lemma ToldSuccess(env: Env, c: Session, stored: Frame, flags: Bytes, expiry: nat) returns (r: Request)
    requires Width(c.backend) > 0 && 0x01 <= stored.opcode <= 0x03 && stored.cas < TWO_TO_THE_64
    requires |flags| == 4 && expiry < 0x1_0000_0000 && stored.extras == flags + BigEndian(expiry, 4)
    requires BinarySessions.Respond(env, c, stored).1[0].status == 0x0000
    ensures r.op.Set? || r.op.Add? || r.op.Replace? || r.op.Cas?
    ensures r.key == stored.key && r.value == stored.value && r.ttl == BinaryTtl(expiry, Next(env, c).now)
    ensures BinarySessions.Respond(env, c, stored).0 == Ask(env, c, r).0 && Ask(env, c, r).1.err == NoError
  {
    r := BinarySessions.StoreRequest(stored, Next(env, c).now);
    ExpiryRead(env, c, expiry, stored.extras[4..]);
  }
}
