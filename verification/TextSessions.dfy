/**
  The text protocol over the cache: what each command asks of the cache, and what the server replies.

  The replies to a whole pipeline of commands are, byte for byte, those of one timed cache over all
  keys, whatever other clients and sweeps do meanwhile.
 */
module TextSessions {
  import opened Basics
  import Counters
  import Decimal
  import opened ExpirationTimes
  import FlatCache
  import opened Sessions
  import Sharding
  import opened Shard
  import Text = TextCommands
  import Replies = TextReplies
  import Words

  // ---------- Replies ----------

  /** The bytes of the server's own texts, which are printable ASCII. */
  function Ascii(s: string): Bytes {
    seq(|s|, i requires 0 <= i < |s| => Printed(s[i]))
  }

  function Printed(c: char): byte {
    if ' ' <= c <= '~' then c as int else 63
  }

  function Say(text: string): Bytes {
    Ascii(text) + Text.LINE_END
  }

  function Unless(noreply: bool, reply: Bytes): Bytes {
    if noreply then [] else reply
  }

  function ErrorText(err: Error): string {
    match err
    case NoError => ""
    case KeyNotFound => "key not found"
    case KeyExists => "key already exists"
    case CasMismatch => "cas mismatch"
    case NotNumeric => "cannot increment or decrement non-numeric value"
  }

  /** The reply to a storage command, by the cache's answer. */
  function StoredReply(op: Op, err: Error, noreply: bool): Bytes {
    if err == NoError then Unless(noreply, Say("STORED"))
    else if op.Cas? && err == CasMismatch then Unless(noreply, Say("EXISTS"))
    else if op.Cas? && err == KeyNotFound then Unless(noreply, Say("NOT_FOUND"))
    else if !op.Cas? && (err == KeyExists || err == KeyNotFound) then Unless(noreply, Say("NOT_STORED"))
    else Say("SERVER_ERROR " + ErrorText(err))
  }

  function DeletedReply(err: Error, noreply: bool): Bytes {
    Unless(noreply, Say(if err == NoError then "DELETED" else "NOT_FOUND"))
  }

  /** A failure other than a missing key is reported even to a client that wants no reply. */
  function CountedReply(answer: Response, noreply: bool): Bytes {
    if answer.err == KeyNotFound then Unless(noreply, Say("NOT_FOUND"))
    else if answer.err != NoError then Say("CLIENT_ERROR " + ErrorText(answer.err))
    else Unless(noreply, Decimal.Format(Counters.Denoted(answer.value)) + Text.LINE_END)
  }

  function TouchedReply(err: Error, noreply: bool): Bytes {
    Unless(noreply, if err == NoError then Say("TOUCHED")
                    else if err == KeyNotFound then Say("NOT_FOUND")
                    else Say("SERVER_ERROR " + ErrorText(err)))
  }

  // ---------- Commands without data ----------

  /** What a command line without a data block asks for. */
  datatype Job =
    | GetKeys(keys: seq<Key>, withCas: bool)
    | DeleteKey(key: Key, noreply: bool)
    | CountKey(key: Key, delta: uint64, incr: bool, noreply: bool)
    | TouchKey(key: Key, exptime: int, noreply: bool)
    | GetAndTouch(exptime: int, keys: seq<Key>, withCas: bool)
    | FlushKeys(noreply: bool)
    | Report
    | Plain(reply: Bytes)

  const BAD_FORMAT: string := "CLIENT_ERROR bad command line format"

  function JobOf(words: seq<Bytes>): Job
    requires words != []
  {
    var cmd := Words.ToUpper(words[0]);
    if cmd == Ascii("GET") then GetJob(words, false)
    else if cmd == Ascii("GETS") then GetJob(words, true)
    else if cmd == Ascii("DELETE") then DeleteJob(words)
    else if cmd == Ascii("INCR") then CountJob(words, true)
    else if cmd == Ascii("DECR") then CountJob(words, false)
    else if cmd == Ascii("TOUCH") then TouchJob(words)
    else if cmd == Ascii("GAT") then GatJob(words, false)
    else if cmd == Ascii("GATS") then GatJob(words, true)
    else if cmd == Ascii("FLUSH_ALL") then FlushKeys(Text.NOREPLY in words[1..])
    else if cmd == Ascii("VERBOSITY") then Plain([])
    else if cmd == Ascii("VERSION") then Plain(Say("VERSION 1.0.0"))
    else if cmd == Ascii("STATS") then Report
    else Plain(Say("ERROR"))
  }

  function GetJob(words: seq<Bytes>, withCas: bool): Job
    requires words != []
  {
    if |words| < 2 then Plain(Say("ERROR")) else GetKeys(words[1..], withCas)
  }

  function DeleteJob(words: seq<Bytes>): Job {
    if |words| < 2 then Plain(Say(BAD_FORMAT)) else DeleteKey(words[1], Text.HasWord(words, 2, Text.NOREPLY))
  }

  function CountJob(words: seq<Bytes>, incr: bool): Job {
    if |words| < 3 then Plain(Say(BAD_FORMAT))
    else
      var delta := Decimal.ParseUint(words[2], TWO_TO_THE_64);
      if delta.None? then Plain(Say("CLIENT_ERROR invalid numeric delta argument"))
      else CountKey(words[1], delta.value, incr, Text.HasWord(words, 3, Text.NOREPLY))
  }

  function TouchJob(words: seq<Bytes>): Job {
    if |words| < 3 then Plain(Say(BAD_FORMAT))
    else TouchKey(words[1], Words.ParseClamped(words[2]), Text.HasWord(words, 3, Text.NOREPLY))
  }

  function GatJob(words: seq<Bytes>, withCas: bool): Job
    requires words != []
  {
    if |words| < 3 then Plain(Say("ERROR"))
    else
      var exptime := Words.ParseInt(words[1]);
      if exptime.None? then Plain(Say(BAD_FORMAT)) else GetAndTouch(exptime.value, words[2..], withCas)
  }

  // ---------- Requests ----------

  /** The cache request of a storage command. */
  function StoreRequest(c: Text.Call, now: nat): Request
    requires c.Store? || c.Extend?
  {
    match c
    case Store(op, key, exptime, data, cas, _) => Request(op, key, data, TextTtl(exptime, now), cas, 0)
    case Extend(op, key, data, _) => Request(op, key, data, 0, 0, 0)
  }

  /** A request with a key and nothing else. */
  function KeyRequest(op: Op, key: Key): Request {
    Request(op, key, [], 0, 0, 0)
  }

  function TouchRequest(key: Key, ttl: int): Request {
    Request(Touch, key, [], ttl, 0, 0)
  }

  function CountRequest(key: Key, delta: uint64, incr: bool): Request {
    Request(if incr then Incr else Decr, key, [], 0, 0, delta)
  }

  /** What a reply to GET prints of an answer. */
  function HitOf(key: Key, answer: Response): Option<Replies.Hit> {
    if answer.err != NoError then None
    else Some(Replies.Hit(key, if answer.flags < 0 then 0 else answer.flags, answer.value, answer.cas))
  }

  /** Gets the keys one after the other. */
  function GetAll(env: Env, c: Session, keys: seq<Key>): (t: (Session, seq<Option<Replies.Hit>>))
    requires Width(c.backend) > 0
    ensures SameKind(c.backend, t.0.backend)
  {
    if keys == [] then (c, [])
    else
      var (before, hits) := GetAll(env, c, keys[..|keys| - 1]);
      var (after, answer) := Ask(env, before, KeyRequest(Get, keys[|keys| - 1]));
      (after, hits + [HitOf(keys[|keys| - 1], answer)])
  }

  /** Gets a key, and touches it if it was found. */
  function GetThenTouch(env: Env, c: Session, key: Key, ttl: int): (t: (Session, Option<Replies.Hit>))
    requires Width(c.backend) > 0
    ensures SameKind(c.backend, t.0.backend)
  {
    var (got, answer) := Ask(env, c, KeyRequest(Get, key));
    (if answer.err == NoError then Ask(env, got, TouchRequest(key, ttl)).0 else got, HitOf(key, answer))
  }

  function GetAndTouchAll(env: Env, c: Session, keys: seq<Key>, ttl: int): (t: (Session, seq<Option<Replies.Hit>>))
    requires Width(c.backend) > 0
    ensures SameKind(c.backend, t.0.backend)
  {
    if keys == [] then (c, [])
    else
      var (before, hits) := GetAndTouchAll(env, c, keys[..|keys| - 1], ttl);
      var (after, hit) := GetThenTouch(env, before, keys[|keys| - 1], ttl);
      (after, hits + [hit])
  }

  // ---------- Conversations ----------

  /** The report of STATS: the process, the clock, and how many entries the workers hold. */
  function ReportOf(env: Env, c: Session): Bytes {
    var m := Next(env, c);
    var count := match c.backend case Workers(shards) => Sharding.ItemCount(shards) case Timed(flat, _) => |flat.items|;
    Ascii("STAT pid ") + Decimal.Format(env.pid) + Text.LINE_END
    + Ascii("STAT uptime ") + Words.FormatInt((m.now - env.started) / SECOND) + Text.LINE_END
    + Ascii("STAT time ") + Decimal.Format(m.clk.check / SECOND) + Text.LINE_END
    + Say("STAT version 1.0.0")
    + Ascii("STAT curr_items ") + Decimal.Format(count) + Text.LINE_END
    + Say("END")
  }

  /** Serves a command without data: the cache afterwards and the reply. */
  function Perform(env: Env, c: Session, job: Job): (t: (Session, Bytes))
    requires Width(c.backend) > 0
    ensures SameKind(c.backend, t.0.backend)
  {
    match job
    case GetKeys(keys, withCas) =>
      var (after, results) := GetAll(env, c, keys);
      (after, Replies.PrintReply(Replies.Hits(results), withCas))
    case DeleteKey(key, noreply) =>
      var (after, answer) := Ask(env, c, KeyRequest(Delete, key));
      (after, DeletedReply(answer.err, noreply))
    case CountKey(key, delta, incr, noreply) =>
      var (after, answer) := Ask(env, c, CountRequest(key, delta, incr));
      (after, CountedReply(answer, noreply))
    case TouchKey(key, exptime, noreply) =>
      var (after, answer) := Ask(env, c, TouchRequest(key, TextTtl(exptime, Next(env, c).now)));
      (after, TouchedReply(answer.err, noreply))
    case GetAndTouch(exptime, keys, withCas) =>
      var (after, results) := GetAndTouchAll(env, c, keys, TextTtl(exptime, Next(env, c).now));
      (after, Replies.PrintReply(Replies.Hits(results), withCas))
    case FlushKeys(noreply) => (FlushFrom(env, c, 0), Unless(noreply, Say("OK")))
    case Report => (c, ReportOf(env, c))
    case Plain(reply) => (c, reply)
  }

  /** Serves a command: the cache afterwards and the reply. */
  function Converse(env: Env, c: Session, call: Text.Call): (t: (Session, Bytes))
    requires Width(c.backend) > 0 && (call.Line? ==> call.words != [])
    ensures SameKind(c.backend, t.0.backend)
  {
    match call
    case Store(op, _, _, _, _, noreply) =>
      var (after, answer) := Ask(env, c, StoreRequest(call, Next(env, c).now));
      (after, StoredReply(op, answer.err, noreply))
    case Extend(op, _, _, noreply) =>
      var (after, answer) := Ask(env, c, StoreRequest(call, Next(env, c).now));
      (after, StoredReply(op, answer.err, noreply))
    case Line(words) => Perform(env, c, JobOf(words))
    case TooLarge => (c, Say("SERVER_ERROR object too large for cache"))
    case BadFormat => (c, Say(BAD_FORMAT))
    case ReadError => (c, Say("SERVER_ERROR read error"))
    case BadCount => (c, [])
  }

  ghost predicate Callable(calls: seq<Text.Call>) {
    forall call :: call in calls && call.Line? ==> call.words != []
  }

  /** Serves commands one after the other: the cache afterwards and all replies, joined. */
  ghost function Talk(env: Env, c: Session, calls: seq<Text.Call>): (t: (Session, Bytes))
    requires Width(c.backend) > 0 && Callable(calls)
    ensures SameKind(c.backend, t.0.backend)
  {
    if calls == [] then (c, [])
    else
      var (before, replies) := Talk(env, c, calls[..|calls| - 1]);
      var (after, reply) := Converse(env, before, calls[|calls| - 1]);
      (after, replies + reply)
  }

  // ---------- Sessions go on ----------

  lemma {:induction false} GetAllProceeds(env: Env, c: Session, keys: seq<Key>)
    requires Width(c.backend) > 0
    ensures Proceeds(env, c, GetAll(env, c, keys).0)
  {
    if keys != [] {
      var prefix := keys[..|keys| - 1];
      GetAllProceeds(env, c, prefix);
      AskProceeds(env, GetAll(env, c, prefix).0, KeyRequest(Get, keys[|keys| - 1]));
    }
  }

  lemma GetThenTouchProceeds(env: Env, c: Session, key: Key, ttl: int)
    requires Width(c.backend) > 0
    ensures Proceeds(env, c, GetThenTouch(env, c, key, ttl).0)
  {
    AskProceeds(env, c, KeyRequest(Get, key));
    AskProceeds(env, Ask(env, c, KeyRequest(Get, key)).0, TouchRequest(key, ttl));
  }

  lemma {:induction false} GetAndTouchAllProceeds(env: Env, c: Session, keys: seq<Key>, ttl: int)
    requires Width(c.backend) > 0
    ensures Proceeds(env, c, GetAndTouchAll(env, c, keys, ttl).0)
  {
    if keys != [] {
      var prefix := keys[..|keys| - 1];
      GetAndTouchAllProceeds(env, c, prefix, ttl);
      GetThenTouchProceeds(env, GetAndTouchAll(env, c, prefix, ttl).0, keys[|keys| - 1], ttl);
    }
  }

  lemma PerformProceeds(env: Env, c: Session, job: Job)
    requires Width(c.backend) > 0
    ensures Proceeds(env, c, Perform(env, c, job).0)
  {
    match job
    case GetKeys(keys, _) => GetAllProceeds(env, c, keys);
    case DeleteKey(key, _) => AskProceeds(env, c, KeyRequest(Delete, key));
    case CountKey(key, delta, incr, _) => AskProceeds(env, c, CountRequest(key, delta, incr));
    case TouchKey(key, exptime, _) => AskProceeds(env, c, TouchRequest(key, TextTtl(exptime, Next(env, c).now)));
    case GetAndTouch(exptime, keys, _) => GetAndTouchAllProceeds(env, c, keys, TextTtl(exptime, Next(env, c).now));
    case FlushKeys(_) => FlushProceeds(env, c, 0);
    case Report | Plain(_) =>
  }

  /** Whatever a command asks of the cache reaches the worker it is for. */
  lemma ConverseProceeds(env: Env, c: Session, call: Text.Call)
    requires Width(c.backend) > 0 && (call.Line? ==> call.words != [])
    ensures Proceeds(env, c, Converse(env, c, call).0)
  {
    match call
    case Store(_, _, _, _, _, _) => AskProceeds(env, c, StoreRequest(call, Next(env, c).now));
    case Extend(_, _, _, _) => AskProceeds(env, c, StoreRequest(call, Next(env, c).now));
    case Line(words) => PerformProceeds(env, c, JobOf(words));
    case _ =>
  }

  /** All requests of a conversation reach the workers that their keys belong to. */
  lemma {:induction false} TalkProceeds(env: Env, c: Session, calls: seq<Text.Call>)
    requires Width(c.backend) > 0 && Callable(calls)
    ensures Proceeds(env, c, Talk(env, c, calls).0)
  {
    if calls != [] {
      var prefix := calls[..|calls| - 1];
      TalkProceeds(env, c, prefix);
      ConverseProceeds(env, Talk(env, c, prefix).0, calls[|calls| - 1]);
    }
  }

  // ---------- The workers and the timed cache ----------

  lemma {:induction false} GetAllAlike(env: Env, start: Start, w: Session, t: Session, keys: seq<Key>)
    requires Fair(env, start) && Alike(env, start, w, t) && Kept(start, GetAll(env, w, keys).0)
    ensures GetAll(env, w, keys).1 == GetAll(env, t, keys).1
    ensures Alike(env, start, GetAll(env, w, keys).0, GetAll(env, t, keys).0)
  {
    if keys != [] {
      var prefix, r := keys[..|keys| - 1], KeyRequest(Get, keys[|keys| - 1]);
      var before := GetAll(env, w, prefix).0;
      KeptBefore(start, before, Ask(env, before, r).0);
      GetAllAlike(env, start, w, t, prefix);
      AskAlike(env, start, before, GetAll(env, t, prefix).0, r);
    }
  }

  lemma GetThenTouchAlike(env: Env, start: Start, w: Session, t: Session, key: Key, ttl: int)
    requires Fair(env, start) && Alike(env, start, w, t) && Kept(start, GetThenTouch(env, w, key, ttl).0)
    ensures GetThenTouch(env, w, key, ttl).1 == GetThenTouch(env, t, key, ttl).1
    ensures Alike(env, start, GetThenTouch(env, w, key, ttl).0, GetThenTouch(env, t, key, ttl).0)
  {
    var r := KeyRequest(Get, key);
    var got := Ask(env, w, r);
    KeptBefore(start, got.0, GetThenTouch(env, w, key, ttl).0);
    AskAlike(env, start, w, t, r);
    if got.1.err == NoError {
      AskAlike(env, start, got.0, Ask(env, t, r).0, TouchRequest(key, ttl));
    }
  }

  lemma {:induction false} GetAndTouchAllAlike(env: Env, start: Start, w: Session, t: Session, keys: seq<Key>, ttl: int)
    requires Fair(env, start) && Alike(env, start, w, t) && Kept(start, GetAndTouchAll(env, w, keys, ttl).0)
    ensures GetAndTouchAll(env, w, keys, ttl).1 == GetAndTouchAll(env, t, keys, ttl).1
    ensures Alike(env, start, GetAndTouchAll(env, w, keys, ttl).0, GetAndTouchAll(env, t, keys, ttl).0)
  {
    if keys != [] {
      var prefix, key := keys[..|keys| - 1], keys[|keys| - 1];
      var before := GetAndTouchAll(env, w, prefix, ttl).0;
      GetThenTouchProceeds(env, before, key, ttl);
      KeptBefore(start, before, GetAndTouchAll(env, w, keys, ttl).0);
      GetAndTouchAllAlike(env, start, w, t, prefix, ttl);
      GetThenTouchAlike(env, start, before, GetAndTouchAll(env, t, prefix, ttl).0, key, ttl);
    }
  }

  lemma PerformAlike(env: Env, start: Start, w: Session, t: Session, job: Job)
    requires Fair(env, start) && Alike(env, start, w, t) && !job.Report?
    requires Kept(start, Perform(env, w, job).0)
    ensures Perform(env, w, job).1 == Perform(env, t, job).1
    ensures Alike(env, start, Perform(env, w, job).0, Perform(env, t, job).0)
  {
    match job
    case GetKeys(keys, _) => GetAllAlike(env, start, w, t, keys);
    case DeleteKey(key, _) => AskAlike(env, start, w, t, KeyRequest(Delete, key));
    case CountKey(key, delta, incr, _) => AskAlike(env, start, w, t, CountRequest(key, delta, incr));
    case TouchKey(key, exptime, _) =>
      AskAlike(env, start, w, t, TouchRequest(key, TextTtl(exptime, Next(env, w).now)));
    case GetAndTouch(exptime, keys, _) =>
      GetAndTouchAllAlike(env, start, w, t, keys, TextTtl(exptime, Next(env, w).now));
    case FlushKeys(_) => FlushAlike(env, start, w, t, 0);
    case Plain(_) =>
  }

  /** A command other than STATS. */
  predicate Answerable(call: Text.Call) {
    match call
    case Line(words) => words != [] && !JobOf(words).Report?
    case Store(op, _, _, _, _, _) => op.Set? || op.Add? || op.Replace? || op.Cas?
    case Extend(op, _, _, _) => op.Append? || op.Prepend?
    case _ => true
  }

  lemma ConverseAlike(env: Env, start: Start, w: Session, t: Session, call: Text.Call)
    requires Fair(env, start) && Alike(env, start, w, t) && Answerable(call)
    requires Kept(start, Converse(env, w, call).0)
    ensures Converse(env, w, call).1 == Converse(env, t, call).1
    ensures Alike(env, start, Converse(env, w, call).0, Converse(env, t, call).0)
  {
    match call
    case Store(_, _, _, _, _, _) => AskAlike(env, start, w, t, StoreRequest(call, Next(env, w).now));
    case Extend(_, _, _, _) => AskAlike(env, start, w, t, StoreRequest(call, Next(env, w).now));
    case Line(words) => PerformAlike(env, start, w, t, JobOf(words));
    case _ =>
  }

  /**
    The replies to any list of commands are, byte for byte, those of one timed cache over all keys,
    whatever other clients do and whenever the workers sweep in between.
   */
  lemma {:induction false} TalkAlike(env: Env, start: Start, w: Session, t: Session, calls: seq<Text.Call>)
    requires Fair(env, start) && Alike(env, start, w, t)
    requires Callable(calls) && forall call :: call in calls ==> Answerable(call)
    requires Kept(start, Talk(env, w, calls).0)
    ensures Talk(env, w, calls).1 == Talk(env, t, calls).1
    ensures Alike(env, start, Talk(env, w, calls).0, Talk(env, t, calls).0)
  {
    if calls != [] {
      var prefix, call := calls[..|calls| - 1], calls[|calls| - 1];
      var before := Talk(env, w, prefix).0;
      ConverseProceeds(env, before, call);
      KeptBefore(start, before, Talk(env, w, calls).0);
      TalkAlike(env, start, w, t, prefix);
      ConverseAlike(env, start, before, Talk(env, t, prefix).0, call);
    }
  }

  lemma {:induction false} TalkContinues(env: Env, c: Session, calls: seq<Text.Call>, i: nat)
    requires Width(c.backend) > 0 && Callable(calls) && i <= |calls|
    ensures Continues(Talk(env, c, calls[..i]).0, Talk(env, c, calls).0)
  {
    if i == |calls| {
      assert calls[..i] == calls;
    } else {
      var prefix := calls[..|calls| - 1];
      assert prefix[..i] == calls[..i];
      TalkContinues(env, c, prefix, i);
      ConverseProceeds(env, Talk(env, c, prefix).0, calls[|calls| - 1]);
    }
  }

  /** The two caches give the same reply to command number `i`. */
  ghost predicate SaidAlike(env: Env, w: Session, t: Session, calls: seq<Text.Call>, i: nat)
    requires Width(w.backend) > 0 && Width(t.backend) > 0 && Callable(calls) && i < |calls|
  {
    Converse(env, Talk(env, w, calls[..i]).0, calls[i]).1 == Converse(env, Talk(env, t, calls[..i]).0, calls[i]).1
  }

  /** Not only all replies together are alike, but each. */
  lemma EachSaidAlike(env: Env, start: Start, w: Session, t: Session, calls: seq<Text.Call>, i: nat)
    requires Fair(env, start) && Alike(env, start, w, t)
    requires Callable(calls) && forall call :: call in calls ==> Answerable(call)
    requires Kept(start, Talk(env, w, calls).0) && i < |calls|
    ensures SaidAlike(env, w, t, calls, i)
  {
    var before := Talk(env, w, calls[..i]).0;
    assert calls[..i + 1][..i] == calls[..i] && calls[i] in calls;
    assert Talk(env, w, calls[..i + 1]).0 == Converse(env, before, calls[i]).0;
    TalkContinues(env, w, calls, i + 1);
    KeptBefore(start, Converse(env, before, calls[i]).0, Talk(env, w, calls).0);
    ConverseProceeds(env, before, calls[i]);
    KeptBefore(start, before, Converse(env, before, calls[i]).0);
    TalkAlike(env, start, w, t, calls[..i]);
    ConverseAlike(env, start, before, Talk(env, t, calls[..i]).0, calls[i]);
  }

  /**
    So there is one timed cache, with some say on which dead entries its Deletes find, whose replies
    to the commands are those of the workers.
   */
  lemma RepliesOfOneCache(env: Env, shards: seq<State>, flat: FlatCache.Flat, times: seq<nat>, calls: seq<Text.Call>)
    returns (held: nat -> bool)
    requires env.cfg.maxMemory <= 0 && shards != [] && FlatCache.FlatAgree(shards, flat, times)
    requires Callable(calls) && forall call :: call in calls ==> Answerable(call)
    requires OthersRouted(env, |shards|) && FlatCache.ClockedAll(times, Talk(env, Begin(Workers(shards)), calls).0.log)
    ensures Talk(env, Begin(Workers(shards)), calls).1 == Talk(env, Begin(Timed(flat, held)), calls).1
    ensures forall i :: 0 <= i < |calls| ==> SaidAlike(env, Begin(Workers(shards)), Begin(Timed(flat, held)), calls, i)
  {
    var answers := Talk(env, Begin(Workers(shards)), calls).0.answers;
    TalkProceeds(env, Begin(Workers(shards)), calls);
    held := (i: nat) => i < |answers| && answers[i].err == NoError;
    var start := Start(shards, flat, times, held);
    BeginAlike(env, start);
    forall i | 0 <= i < |calls|
      ensures SaidAlike(env, Begin(Workers(shards)), Begin(Timed(flat, held)), calls, i)
    {
      EachSaidAlike(env, start, Begin(Workers(shards)), Begin(Timed(flat, held)), calls, i);
    }
    TalkAlike(env, start, Begin(Workers(shards)), Begin(Timed(flat, held)), calls);
  }
}
