/**
  The replies to a pipeline of text commands, as a client takes them apart again: it knows what it
  sent, and so whether a line, a list of values or nothing comes next.
 */
module ReplyStreams {
  import opened Basics
  import Counters
  import Decimal
  import ExpirationTimes
  import FlatCache
  import opened Sessions
  import opened Shard
  import Sharding
  import Text = TextCommands
  import Replies = TextReplies
  import opened TextSessions
  import Words

  // ---------- What a client expects ----------

  datatype Shape = Nothing | Single | Several(withCas: bool)

  function OneUnless(noreply: bool): Shape {
    if noreply then Nothing else Single
  }

  function ShapeOfJob(job: Job): Shape {
    match job
    case GetKeys(_, withCas) => Several(withCas)
    case GetAndTouch(_, _, withCas) => Several(withCas)
    case DeleteKey(_, noreply) => OneUnless(noreply)
    case CountKey(_, _, _, noreply) => OneUnless(noreply)
    case TouchKey(_, _, noreply) => OneUnless(noreply)
    case FlushKeys(noreply) => OneUnless(noreply)
    case Plain(reply) => OneUnless(reply == [])
    case Report => Single
  }

  /** What comes back for a command. */
  function ShapeOf(call: Text.Call): Shape
    requires call.Line? ==> call.words != []
  {
    match call
    case Store(_, _, _, _, _, noreply) => OneUnless(noreply)
    case Extend(_, _, _, noreply) => OneUnless(noreply)
    case Line(words) => ShapeOfJob(JobOf(words))
    case _ => Single
  }

  datatype Told = Silence | OneLine(line: Bytes) | Values(hits: seq<Replies.Hit>)

  /** What a client takes for one reply, and the stream after it. */
  function TakeReply(shape: Shape, s: Bytes): Option<(Told, Bytes)> {
    match shape
    case Nothing => Some((Silence, s))
    case Single =>
      var n := Words.LineLength(s);
      if n.None? then None else Some((OneLine(s[..n.value]), s[n.value..]))
    case Several(withCas) =>
      var read := Replies.ReadReply(s, withCas);
      if read.None? then None else Some((Values(read.value.0), read.value.1))
  }

  // ---------- Lines ----------

  /** One line with its newline, and nothing else. */
  predicate IsLine(reply: Bytes) {
    reply != [] && reply[|reply| - 1] == Words.NEWLINE && Words.NEWLINE !in reply[..|reply| - 1]
  }

  lemma LineTaken(reply: Bytes, rest: Bytes)
    requires IsLine(reply)
    ensures TakeReply(Single, reply + rest) == Some((OneLine(reply), rest))
  {
    var line := reply[..|reply| - 1];
    assert reply == line + [Words.NEWLINE];
    Words.LineEnds(line, rest);
    assert (reply + rest)[..|reply|] == reply && (reply + rest)[|reply|..] == rest;
  }

  lemma SayIsLine(text: string)
    ensures IsLine(Say(text))
  {
    var line := Ascii(text) + [Words.RETURN];
    assert Say(text)[..|Say(text)| - 1] == line;
    forall i | 0 <= i < |line|
      ensures line[i] != Words.NEWLINE
    {
      assert i < |text| ==> line[i] == Printed(text[i]);
    }
  }

  lemma NumberIsLine(n: nat)
    ensures IsLine(Decimal.Format(n) + Text.LINE_END)
  {
    var reply, line := Decimal.Format(n) + Text.LINE_END, Decimal.Format(n) + [Words.RETURN];
    Decimal.FormatDenotes(n);
    assert reply[..|reply| - 1] == line;
    forall i | 0 <= i < |line|
      ensures line[i] != Words.NEWLINE
    {
      assert i < |Decimal.Format(n)| ==> Decimal.IsDigit(line[i]);
    }
  }

  // ---------- One reply ----------

  /** What the reply to a command says. */
  function ToldOf(env: Env, c: Session, call: Text.Call): Told
    requires Width(c.backend) > 0 && (call.Line? ==> call.words != [])
  {
    match ShapeOf(call)
    case Nothing => Silence
    case Single => OneLine(Converse(env, c, call).1)
    case Several(withCas) => Values(Replies.AllTold(Replies.Hits(FoundBy(env, c, JobOf(call.words))), withCas))
  }

  /** The keys that a job gets, with what was found. */
  function FoundBy(env: Env, c: Session, job: Job): seq<Option<Replies.Hit>>
    requires Width(c.backend) > 0
  {
    match job
    case GetKeys(keys, _) => GetAll(env, c, keys).1
    case GetAndTouch(exptime, keys, _) =>
      GetAndTouchAll(env, c, keys, ExpirationTimes.TextTtl(exptime, Next(env, c).now)).1
    case _ => []
  }

  /**
    The one reply a client does not expect: a count that fails on text that is no number is reported
    also to a client that wants no reply.
   */
  predicate Unexpected(env: Env, c: Session, call: Text.Call)
    requires Width(c.backend) > 0
  {
    && call.Line? && call.words != []
    && var job := JobOf(call.words);
       job.CountKey? && job.noreply
       && Ask(env, c, CountRequest(job.key, job.delta, job.incr)).1.err !in {NoError, KeyNotFound}
  }

  /** Every value and flag answered fits a number of 64 bits. */
  predicate Sized(answers: seq<Response>) {
    forall i :: 0 <= i < |answers| ==> |answers[i].value| < TWO_TO_THE_64 && answers[i].flags < TWO_TO_THE_64
  }

  ghost predicate AllPrintable(results: seq<Option<Replies.Hit>>) {
    forall h :: h in Replies.Hits(results) ==> Replies.Printable(h)
  }

  lemma OneMorePrintable(results: seq<Option<Replies.Hit>>, hit: Option<Replies.Hit>)
    requires AllPrintable(results) && (hit.Some? ==> Replies.Printable(hit.value))
    ensures AllPrintable(results + [hit])
  {
    assert (results + [hit])[..|results|] == results;
  }

  lemma SizedBefore(c: Session, c': Session)
    requires Continues(c, c') && Sized(c'.answers)
    ensures Sized(c.answers)
  {
    assert forall i :: 0 <= i < |c.answers| ==> c.answers[i] == c'.answers[i];
  }

  lemma AnsweredSized(env: Env, c: Session, r: Request)
    requires Width(c.backend) > 0 && Sized(Ask(env, c, r).0.answers)
    ensures var answer := Ask(env, c, r).1; |answer.value| < TWO_TO_THE_64 && answer.flags < TWO_TO_THE_64
    ensures Sized(c.answers)
  {
    var after := Ask(env, c, r).0;
    SizedBefore(c, after);
    assert after.answers[|c.answers|] == Ask(env, c, r).1;
  }

  lemma {:induction false} GotPrintable(env: Env, c: Session, keys: seq<Key>)
    requires Width(c.backend) > 0 && Words.AllWords(keys) && Sized(GetAll(env, c, keys).0.answers)
    ensures AllPrintable(GetAll(env, c, keys).1)
  {
    if keys != [] {
      var prefix, key := keys[..|keys| - 1], keys[|keys| - 1];
      var (before, results) := GetAll(env, c, prefix);
      AnsweredSized(env, before, KeyRequest(Get, key));
      GotPrintable(env, c, prefix);
      assert key in keys;
      OneMorePrintable(results, HitOf(key, Ask(env, before, KeyRequest(Get, key)).1));
    }
  }

  lemma {:induction false} TouchedPrintable(env: Env, c: Session, keys: seq<Key>, ttl: int)
    requires Width(c.backend) > 0 && Words.AllWords(keys) && Sized(GetAndTouchAll(env, c, keys, ttl).0.answers)
    ensures AllPrintable(GetAndTouchAll(env, c, keys, ttl).1)
  {
    if keys != [] {
      var prefix, key := keys[..|keys| - 1], keys[|keys| - 1];
      var (before, results) := GetAndTouchAll(env, c, prefix, ttl);
      var got := Ask(env, before, KeyRequest(Get, key));
      SizedBefore(got.0, GetThenTouch(env, before, key, ttl).0);
      AnsweredSized(env, before, KeyRequest(Get, key));
      TouchedPrintable(env, c, prefix, ttl);
      assert key in keys;
      OneMorePrintable(results, HitOf(key, got.1));
    }
  }

  lemma ValuesTaken(results: seq<Option<Replies.Hit>>, withCas: bool, rest: Bytes)
    requires AllPrintable(results)
    ensures TakeReply(Several(withCas), Replies.PrintReply(Replies.Hits(results), withCas) + rest) ==
            Some((Values(Replies.AllTold(Replies.Hits(results), withCas)), rest))
  {
    var hits := Replies.Hits(results);
    Replies.ReplyReadBack(hits, rest, Replies.PrintReply(hits, withCas) + rest, withCas);
  }

  // ---------- Errors ----------

  /** A storage command fails only in the ways that a client is told of. */
  lemma StoreErrors(cfg: Config, s: State, r: Request, clk: Clock)
    requires r.op.Set? || r.op.Add? || r.op.Replace? || r.op.Cas? || r.op.Append? || r.op.Prepend?
    ensures var err := Handle(cfg, s, r, clk).1.err;
            err == NoError || err == KeyNotFound || (if r.op.Cas? then err == CasMismatch else err == KeyExists)
  {
  }

  /** A reply of the right shape is taken. */
  lemma ShapedTaken(shape: Shape, reply: Bytes, rest: Bytes)
    requires !shape.Several? && (if shape.Nothing? then reply == [] else IsLine(reply))
    ensures TakeReply(shape, reply + rest) == Some((if shape.Nothing? then Silence else OneLine(reply), rest))
  {
    if shape.Nothing? {
      assert reply + rest == rest;
    } else {
      LineTaken(reply, rest);
    }
  }

  lemma StoredShape(op: Op, err: Error, noreply: bool)
    requires err == NoError || err == KeyNotFound || (if op.Cas? then err == CasMismatch else err == KeyExists)
    ensures var reply := StoredReply(op, err, noreply); if noreply then reply == [] else IsLine(reply)
  {
    SayIsLine("STORED");
    SayIsLine("EXISTS");
    SayIsLine("NOT_FOUND");
    SayIsLine("NOT_STORED");
  }

  lemma StoreReplyTaken(env: Env, c: Session, call: Text.Call, rest: Bytes)
    requires c.backend.Workers? && Width(c.backend) > 0 && (call.Store? || call.Extend?) && Answerable(call)
    ensures TakeReply(ShapeOf(call), Converse(env, c, call).1 + rest) == Some((ToldOf(env, c, call), rest))
  {
    var r, m := StoreRequest(call, Next(env, c).now), Next(env, c);
    var met := Meet(env.cfg, c.backend, m.others);
    StoreErrors(env.cfg, met.shards[Sharding.Home(r.key, Width(c.backend))], r, m.clk);
    StoredShape(call.op, Ask(env, c, r).1.err, call.noreply);
    ShapedTaken(ShapeOf(call), Converse(env, c, call).1, rest);
  }

  lemma CountedShape(answer: Response, noreply: bool)
    ensures var reply := CountedReply(answer, noreply);
            if noreply && answer.err in {NoError, KeyNotFound} then reply == [] else IsLine(reply)
  {
    SayIsLine("NOT_FOUND");
    SayIsLine("CLIENT_ERROR " + ErrorText(answer.err));
    NumberIsLine(Counters.Denoted(answer.value));
  }

  /** The reply to a job: taken for what it says, or a line that the client does not expect. */
  lemma JobReplyTaken(env: Env, c: Session, call: Text.Call, rest: Bytes)
    requires Width(c.backend) > 0 && call.Line? && Text.Spaced(call) && Answerable(call)
    requires Sized(Converse(env, c, call).0.answers)
    ensures var reply := Converse(env, c, call).1;
            if Unexpected(env, c, call) then ShapeOf(call) == Nothing && IsLine(reply)
            else TakeReply(ShapeOf(call), reply + rest) == Some((ToldOf(env, c, call), rest))
  {
    var job, shape, reply := JobOf(call.words), ShapeOf(call), Converse(env, c, call).1;
    var unexpected := Unexpected(env, c, call);
    JobSpaced(call.words);
    match job
    case GetKeys(keys, withCas) =>
      GotPrintable(env, c, keys);
      ValuesTaken(GetAll(env, c, keys).1, withCas, rest);
    case GetAndTouch(exptime, keys, withCas) =>
      var ttl := ExpirationTimes.TextTtl(exptime, Next(env, c).now);
      TouchedPrintable(env, c, keys, ttl);
      ValuesTaken(GetAndTouchAll(env, c, keys, ttl).1, withCas, rest);
    case CountKey(key, delta, incr, noreply) =>
      CountedShape(Ask(env, c, CountRequest(key, delta, incr)).1, noreply);
      if !unexpected { ShapedTaken(shape, reply, rest); }
    case _ =>
      PlainShape(env, c, job);
      ShapedTaken(shape, reply, rest);
  }

  /** The keys of a job are words of its line, and a plain reply is a line or nothing. */
  lemma JobSpaced(words: seq<Bytes>)
    requires words != [] && Words.AllWords(words)
    ensures var job := JobOf(words);
            && (job.GetKeys? || job.GetAndTouch? ==> Words.AllWords(job.keys))
            && (job.Plain? ==> job.reply == [] || IsLine(job.reply))
  {
    SayIsLine("ERROR");
    SayIsLine(BAD_FORMAT);
    SayIsLine("CLIENT_ERROR invalid numeric delta argument");
    SayIsLine("VERSION 1.0.0");
  }

  lemma PlainShape(env: Env, c: Session, job: Job)
    requires Width(c.backend) > 0 && (job.DeleteKey? || job.TouchKey? || job.FlushKeys? || job.Plain?)
    requires job.Plain? ==> job.reply == [] || IsLine(job.reply)
    ensures var reply := Perform(env, c, job).1;
            if ShapeOfJob(job).Nothing? then reply == [] else IsLine(reply)
  {
    SayIsLine("DELETED");
    SayIsLine("NOT_FOUND");
    SayIsLine("TOUCHED");
    SayIsLine("OK");
    if job.TouchKey? {
      var r := TouchRequest(job.key, ExpirationTimes.TextTtl(job.exptime, Next(env, c).now));
      SayIsLine("SERVER_ERROR " + ErrorText(Ask(env, c, r).1.err));
    }
  }

  /**
    A client takes from the reply to any command what it says, and is then at the next reply; but for
    a count that fails without its wanting a reply, after which it is one line behind.
   */
  lemma ReplyTaken(env: Env, c: Session, call: Text.Call, rest: Bytes)
    requires c.backend.Workers? && Width(c.backend) > 0 && Text.Spaced(call) && Answerable(call) && !call.BadCount?
    requires Sized(Converse(env, c, call).0.answers)
    ensures var reply := Converse(env, c, call).1;
            if Unexpected(env, c, call) then ShapeOf(call) == Nothing && IsLine(reply)
            else TakeReply(ShapeOf(call), reply + rest) == Some((ToldOf(env, c, call), rest))
  {
    var shape, reply := ShapeOf(call), Converse(env, c, call).1;
    match call
    case Store(_, _, _, _, _, _) => StoreReplyTaken(env, c, call, rest);
    case Extend(_, _, _, _) => StoreReplyTaken(env, c, call, rest);
    case Line(_) => JobReplyTaken(env, c, call, rest);
    case _ =>
      SayIsLine("SERVER_ERROR object too large for cache");
      SayIsLine(BAD_FORMAT);
      SayIsLine("SERVER_ERROR read error");
      ShapedTaken(shape, reply, rest);
  }

  // ---------- All replies ----------

  /** What a client takes for the replies to its commands, one after the other. */
  ghost function ReadReplies(calls: seq<Text.Call>, s: Bytes): Option<(seq<Told>, Bytes)>
    requires Callable(calls)
  {
    if calls == [] then Some(([], s))
    else
      var before := ReadReplies(calls[..|calls| - 1], s);
      if before.None? then None
      else
        var taken := TakeReply(ShapeOf(calls[|calls| - 1]), before.value.1);
        if taken.None? then None else Some((before.value.0 + [taken.value.0], taken.value.1))
  }

  /** What the replies say. */
  ghost function ToldAll(env: Env, c: Session, calls: seq<Text.Call>): seq<Told>
    requires Width(c.backend) > 0 && Callable(calls)
  {
    if calls == [] then []
    else
      var prefix := calls[..|calls| - 1];
      ToldAll(env, c, prefix) + [ToldOf(env, Talk(env, c, prefix).0, calls[|calls| - 1])]
  }

  /** No reply comes that the client does not expect. */
  ghost predicate NoSurprise(env: Env, c: Session, calls: seq<Text.Call>)
    requires Width(c.backend) > 0 && Callable(calls)
  {
    calls != [] ==>
      var prefix := calls[..|calls| - 1];
      NoSurprise(env, c, prefix) && !Unexpected(env, Talk(env, c, prefix).0, calls[|calls| - 1])
  }

  /** A command that the server can serve to the end, other than STATS. */
  ghost predicate Served(call: Text.Call) {
    Answerable(call) && Text.Spaced(call) && !call.BadCount?
  }

  ghost predicate AllServed(calls: seq<Text.Call>) {
    forall call :: call in calls ==> Served(call)
  }

  lemma ReadMore(calls: seq<Text.Call>, s: Bytes, tolds: seq<Told>, left: Bytes, told: Told, rest: Bytes)
    requires calls != [] && Callable(calls)
    requires ReadReplies(calls[..|calls| - 1], s) == Some((tolds, left))
    requires TakeReply(ShapeOf(calls[|calls| - 1]), left) == Some((told, rest))
    ensures ReadReplies(calls, s) == Some((tolds + [told], rest))
  {
  }

  /** The last reply of a list is taken. */
  lemma LastTaken(env: Env, c: Session, calls: seq<Text.Call>, rest: Bytes)
    requires c.backend.Workers? && Width(c.backend) > 0 && calls != [] && Callable(calls) && AllServed(calls)
    requires Sized(Talk(env, c, calls).0.answers) && NoSurprise(env, c, calls)
    ensures var prefix, call := calls[..|calls| - 1], calls[|calls| - 1];
            var (before, replies) := Talk(env, c, prefix);
            var reply := Converse(env, before, call).1;
            && Sized(before.answers) && Talk(env, c, calls).1 == replies + reply
            && TakeReply(ShapeOf(call), reply + rest) == Some((ToldOf(env, before, call), rest))
  {
    var prefix, call := calls[..|calls| - 1], calls[|calls| - 1];
    var before := Talk(env, c, prefix).0;
    assert call in calls && Served(call);
    ConverseProceeds(env, before, call);
    SizedBefore(before, Converse(env, before, call).0);
    ReplyTaken(env, before, call, rest);
  }

  /**
    A client that has sent any list of commands takes the replies apart again, and is in the end at
    what comes after them.
   */
  lemma {:induction false} ClientStaysInStep(env: Env, c: Session, calls: seq<Text.Call>, rest: Bytes, s: Bytes)
    requires c.backend.Workers? && Width(c.backend) > 0 && Callable(calls) && AllServed(calls)
    requires Sized(Talk(env, c, calls).0.answers) && NoSurprise(env, c, calls) && s == Talk(env, c, calls).1 + rest
    ensures ReadReplies(calls, s) == Some((ToldAll(env, c, calls), rest))
  {
    if calls == [] {
      assert s == rest;
    } else {
      var prefix, call := calls[..|calls| - 1], calls[|calls| - 1];
      var (before, replies) := Talk(env, c, prefix);
      var left := Converse(env, before, call).1 + rest;
      LastTaken(env, c, calls, rest);
      Replies.Associative(replies, Converse(env, before, call).1, rest);
      ClientStaysInStep(env, c, prefix, left, s);
      ReadMore(calls, s, ToldAll(env, c, prefix), left, ToldOf(env, before, call), rest);
    }
  }

  /** What well-formed commands other than STATS are served as can be served to the end. */
  lemma {:induction false} IntendedServed(cs: seq<Text.Command>)
    requires forall c :: c in cs ==> Text.WellFormed(c) && Answerable(Text.Intended(c))
    ensures Callable(Text.AllIntended(cs)) && AllServed(Text.AllIntended(cs))
  {
    if cs != [] {
      IntendedServed(cs[1..]);
      assert Served(Text.Intended(cs[0]));
    }
  }

  /**
    From pipeline to replies: a client sends well-formed commands, with arbitrary data, in one stream.
    The server's replies are, byte for byte, those of one timed cache to the commands as the client
    meant them; and the client takes each of them apart.
   */
  lemma PipelineAnswered(env: Env, shards: seq<State>, flat: FlatCache.Flat, times: seq<nat>, cs: seq<Text.Command>)
    returns (held: nat -> bool)
    requires env.cfg.maxMemory <= 0 && shards != [] && FlatCache.FlatAgree(shards, flat, times)
    requires forall c :: c in cs ==> Text.WellFormed(c) && Answerable(Text.Intended(c))
    requires OthersRouted(env, |shards|)
    ensures Text.Commands(Text.PrintAll(cs)) == Text.AllIntended(cs) && Callable(Text.AllIntended(cs))
    ensures var (after, replies) := Talk(env, Begin(Workers(shards)), Text.AllIntended(cs));
            FlatCache.ClockedAll(times, after.log) ==>
              && replies == Talk(env, Begin(Timed(flat, held)), Text.AllIntended(cs)).1
              && (forall i :: 0 <= i < |Text.AllIntended(cs)| ==>
                    SaidAlike(env, Begin(Workers(shards)), Begin(Timed(flat, held)), Text.AllIntended(cs), i))
              && (Sized(after.answers) && NoSurprise(env, Begin(Workers(shards)), Text.AllIntended(cs)) ==>
                    ReadReplies(Text.AllIntended(cs), replies) ==
                    Some((ToldAll(env, Begin(Workers(shards)), Text.AllIntended(cs)), [])))
  {
    var calls := Text.AllIntended(cs);
    var begin := Begin(Workers(shards));
    Text.StreamStaysInSync(cs, Text.PrintAll(cs));
    IntendedServed(cs);
    held := (i: nat) => false;
    if FlatCache.ClockedAll(times, Talk(env, begin, calls).0.log) {
      held := RepliesOfOneCache(env, shards, flat, times, calls);
      if Sized(Talk(env, begin, calls).0.answers) && NoSurprise(env, begin, calls) {
        var replies := Talk(env, begin, calls).1;
        assert replies + [] == replies;
        ClientStaysInStep(env, begin, calls, [], replies);
      }
    }
  }
}
