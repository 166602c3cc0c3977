/**
  The binary protocol over the cache: what each request asks of the cache, and the responses to it.

  The responses to a whole stream of requests are those of one timed cache over all keys, whatever
  other clients and sweeps do meanwhile.
 */
module BinarySessions {
  import opened Basics
  import opened BinaryFrames
  import BinaryServer
  import Counters
  import Decimal
  import opened ExpirationTimes
  import FlatCache
  import opened Sessions
  import Shard
  import Sharding
  import TextSessions

  // ---------- Responses ----------

  function ResponseTo(req: Frame, status: nat, extras: Bytes, key: Key, value: Bytes, cas: nat): Frame {
    Frame(req.opcode, extras, key, value, 0, status, req.opaque32, cas)
  }

  /** A response with a status and nothing else. */
  function Bare(req: Frame, status: nat): Frame {
    ResponseTo(req, status, [], [], [], 0)
  }

  /** The response to a request that stores something: its token, or that it was not done. */
  function TokenOr(req: Frame, answer: Shard.Response, status: nat): Frame {
    if answer.err == Shard.NoError then ResponseTo(req, SUCCESS, [], [], [], answer.cas) else Bare(req, status)
  }

  /** The response to a get of any kind; a quiet one says nothing of a key that is not there. */
  function GotResponse(req: Frame, answer: Shard.Response, withKey: bool, quiet: bool): seq<Frame> {
    if answer.err != Shard.NoError then (if quiet then [] else [Bare(req, KEY_NOT_FOUND)])
    else
      [ResponseTo(req, SUCCESS, [0, 0, 0, answer.flags % 0x100], if withKey then req.key else [], answer.value,
                  answer.cas)]
  }

  function CountedResponse(req: Frame, answer: Shard.Response): Frame {
    if answer.err != Shard.NoError then Bare(req, INVALID_ARGS)
    else ResponseTo(req, SUCCESS, [], [], BigEndian(Counters.Denoted(answer.value), 8), answer.cas)
  }

  // ---------- Requests ----------

  /** The TTL in a field of four bytes. */
  function TtlIn(field: Bytes, now: nat): int {
    BinaryTtl(FromBigEndian(field), now)
  }

  /** The cache request of a SET, ADD or REPLACE: with a token it is a compare-and-swap. */
  function StoreRequest(f: Frame, now: nat): Shard.Request
    requires |f.extras| == 8 && f.cas < TWO_TO_THE_64
  {
    var op := if f.cas > 0 then Shard.Cas
              else if f.opcode == SET then Shard.Set
              else if f.opcode == ADD then Shard.Add
              else Shard.Replace;
    Shard.Request(op, f.key, f.value, TtlIn(f.extras[4..], now), f.cas, 0)
  }

  function ExtendRequest(f: Frame): Shard.Request {
    Shard.Request(if f.opcode == APPEND then Shard.Append else Shard.Prepend, f.key, f.value, 0, 0, 0)
  }

  // ---------- Conversations ----------

  /** Touches a key, and then gets it; the token is that of the touch. */
  function TouchThenGet(env: Env, c: Session, f: Frame, ttl: int): (t: (Session, seq<Frame>))
    requires Width(c.backend) > 0
    ensures SameKind(c.backend, t.0.backend)
  {
    var (touched, token) := Ask(env, c, TextSessions.TouchRequest(f.key, ttl));
    if token.err != Shard.NoError then (touched, [Bare(f, KEY_NOT_FOUND)])
    else
      var (got, answer) := Ask(env, touched, TextSessions.KeyRequest(Shard.Get, f.key));
      if answer.err != Shard.NoError then (got, [Bare(f, KEY_NOT_FOUND)])
      else
        var key := if f.opcode == GATK then f.key else [];
        (got, [ResponseTo(f, SUCCESS, [0, 0, 0, 0], key, answer.value, token.cas)])
  }

  const CURR_ITEMS: string := "curr_items"

  function StatResponses(c: Session, f: Frame): seq<Frame> {
    var count := match c.backend case Workers(shards) => Sharding.ItemCount(shards) case Timed(flat, _) => |flat.items|;
    [ResponseTo(f, SUCCESS, [], TextSessions.Ascii(CURR_ITEMS), Decimal.Format(count), 0), Bare(f, SUCCESS)]
  }

  function ServeStore(env: Env, c: Session, f: Frame): (t: (Session, seq<Frame>))
    requires Width(c.backend) > 0 && f.cas < TWO_TO_THE_64
    ensures SameKind(c.backend, t.0.backend)
  {
    if |f.extras| != 8 then (c, [Bare(f, INVALID_ARGS)])
    else
      var (after, answer) := Ask(env, c, StoreRequest(f, Next(env, c).now));
      (after, [TokenOr(f, answer, ITEM_NOT_STORED)])
  }

  function ServeExtension(env: Env, c: Session, f: Frame): (t: (Session, seq<Frame>))
    requires Width(c.backend) > 0
    ensures SameKind(c.backend, t.0.backend)
  {
    if f.extras != [] then (c, [Bare(f, INVALID_ARGS)])
    else
      var (after, answer) := Ask(env, c, ExtendRequest(f));
      (after, [TokenOr(f, answer, ITEM_NOT_STORED)])
  }

  function ServeCount(env: Env, c: Session, f: Frame): (t: (Session, seq<Frame>))
    requires Width(c.backend) > 0
    ensures SameKind(c.backend, t.0.backend)
  {
    if |f.extras| < 20 then (c, [Bare(f, INVALID_ARGS)])
    else
      var r := TextSessions.CountRequest(f.key, Number64(f.extras[..8]), f.opcode == INCREMENT);
      var (after, answer) := Ask(env, c, r);
      (after, [CountedResponse(f, answer)])
  }

  function ServeGet(env: Env, c: Session, f: Frame): (t: (Session, seq<Frame>))
    requires Width(c.backend) > 0
    ensures SameKind(c.backend, t.0.backend)
  {
    var (after, answer) := Ask(env, c, TextSessions.KeyRequest(Shard.Get, f.key));
    (after, GotResponse(f, answer, f.opcode == GETK || f.opcode == GETKQ, f.opcode == GETQ || f.opcode == GETKQ))
  }

  function ServeDelete(env: Env, c: Session, f: Frame): (t: (Session, seq<Frame>))
    requires Width(c.backend) > 0
    ensures SameKind(c.backend, t.0.backend)
  {
    var (after, answer) := Ask(env, c, TextSessions.KeyRequest(Shard.Delete, f.key));
    (after, [Bare(f, if answer.err == Shard.NoError then SUCCESS else KEY_NOT_FOUND)])
  }

  /** A TOUCH, a GAT or a GATK; their extras are the TTL. */
  function ServeTouch(env: Env, c: Session, f: Frame): (t: (Session, seq<Frame>))
    requires Width(c.backend) > 0
    ensures SameKind(c.backend, t.0.backend)
  {
    if |f.extras| != 4 then (c, [Bare(f, INVALID_ARGS)])
    else
      var ttl := TtlIn(f.extras, Next(env, c).now);
      if f.opcode == TOUCH then
        var (after, answer) := Ask(env, c, TextSessions.TouchRequest(f.key, ttl));
        (after, [TokenOr(f, answer, KEY_NOT_FOUND)])
      else TouchThenGet(env, c, f, ttl)
  }

  /** Serves a request: the cache afterwards and the responses. */
  function Respond(env: Env, c: Session, f: Frame): (t: (Session, seq<Frame>))
    requires Width(c.backend) > 0 && f.cas < TWO_TO_THE_64
    ensures SameKind(c.backend, t.0.backend)
  {
    if f.opcode == SET || f.opcode == ADD || f.opcode == REPLACE then ServeStore(env, c, f)
    else if f.opcode == DELETE then ServeDelete(env, c, f)
    else if f.opcode == INCREMENT || f.opcode == DECREMENT then ServeCount(env, c, f)
    else if f.opcode == FLUSH then (FlushFrom(env, c, 0), [Bare(f, SUCCESS)])
    else if f.opcode == GET || f.opcode == GETQ || f.opcode == GETK || f.opcode == GETKQ then ServeGet(env, c, f)
    else if f.opcode == VERSION then (c, [ResponseTo(f, SUCCESS, [], [], TextSessions.Ascii("1.0.0"), 0)])
    else if f.opcode == NOOP then (c, [Bare(f, SUCCESS)])
    else if f.opcode == APPEND || f.opcode == PREPEND then ServeExtension(env, c, f)
    else if f.opcode == STAT then (c, StatResponses(c, f))
    else if f.opcode == TOUCH || f.opcode == GAT || f.opcode == GATK then ServeTouch(env, c, f)
    else (c, [Bare(f, UNKNOWN_COMMAND)])
  }

  ghost predicate AllTokens(frames: seq<Frame>) {
    forall f :: f in frames ==> f.cas < TWO_TO_THE_64
  }

  /** Serves requests one after the other: the cache afterwards and all responses. */
  ghost function Exchange(env: Env, c: Session, frames: seq<Frame>): (t: (Session, seq<Frame>))
    requires Width(c.backend) > 0 && AllTokens(frames)
    ensures SameKind(c.backend, t.0.backend)
  {
    if frames == [] then (c, [])
    else
      var (before, responses) := Exchange(env, c, frames[..|frames| - 1]);
      var (after, more) := Respond(env, before, frames[|frames| - 1]);
      (after, responses + more)
  }

  // ---------- The workers and the timed cache ----------

  lemma TouchThenGetAlike(env: Env, start: Start, w: Session, t: Session, f: Frame, ttl: int)
    requires Fair(env, start) && Alike(env, start, w, t) && Kept(start, TouchThenGet(env, w, f, ttl).0)
    ensures TouchThenGet(env, w, f, ttl).1 == TouchThenGet(env, t, f, ttl).1
    ensures Alike(env, start, TouchThenGet(env, w, f, ttl).0, TouchThenGet(env, t, f, ttl).0)
  {
    var r := TextSessions.TouchRequest(f.key, ttl);
    var touched := Ask(env, w, r);
    KeptBefore(start, touched.0, TouchThenGet(env, w, f, ttl).0);
    AskAlike(env, start, w, t, r);
    if touched.1.err == Shard.NoError {
      AskAlike(env, start, touched.0, Ask(env, t, r).0, TextSessions.KeyRequest(Shard.Get, f.key));
    }
  }

  lemma TouchedAlike(env: Env, start: Start, w: Session, t: Session, f: Frame)
    requires Fair(env, start) && Alike(env, start, w, t) && Kept(start, ServeTouch(env, w, f).0)
    ensures ServeTouch(env, w, f).1 == ServeTouch(env, t, f).1
    ensures Alike(env, start, ServeTouch(env, w, f).0, ServeTouch(env, t, f).0)
  {
    if |f.extras| == 4 {
      var ttl := TtlIn(f.extras, Next(env, w).now);
      if f.opcode == TOUCH {
        AskAlike(env, start, w, t, TextSessions.TouchRequest(f.key, ttl));
      } else {
        TouchThenGetAlike(env, start, w, t, f, ttl);
      }
    }
  }

  /** The one cache request of most operations. */
  function OnlyRequest(f: Frame, now: nat): Option<Shard.Request>
    requires f.cas < TWO_TO_THE_64
  {
    if f.opcode == SET || f.opcode == ADD || f.opcode == REPLACE then
      if |f.extras| != 8 then None else Some(StoreRequest(f, now))
    else if f.opcode == DELETE then Some(TextSessions.KeyRequest(Shard.Delete, f.key))
    else if f.opcode == INCREMENT || f.opcode == DECREMENT then
      if |f.extras| < 20 then None
      else Some(TextSessions.CountRequest(f.key, Number64(f.extras[..8]), f.opcode == INCREMENT))
    else if f.opcode == GET || f.opcode == GETQ || f.opcode == GETK || f.opcode == GETKQ then
      Some(TextSessions.KeyRequest(Shard.Get, f.key))
    else if f.opcode == APPEND || f.opcode == PREPEND then
      if f.extras != [] then None else Some(ExtendRequest(f))
    else None
  }

  /** A request other than STAT is answered alike. */
  lemma RespondAlike(env: Env, start: Start, w: Session, t: Session, f: Frame)
    requires Fair(env, start) && Alike(env, start, w, t) && f.cas < TWO_TO_THE_64 && f.opcode != STAT
    requires Kept(start, Respond(env, w, f).0)
    ensures Respond(env, w, f).1 == Respond(env, t, f).1
    ensures Alike(env, start, Respond(env, w, f).0, Respond(env, t, f).0)
  {
    var r := OnlyRequest(f, Next(env, w).now);
    if r.Some? {
      AskAlike(env, start, w, t, r.value);
    } else if f.opcode == FLUSH {
      FlushAlike(env, start, w, t, 0);
    } else if f.opcode == TOUCH || f.opcode == GAT || f.opcode == GATK {
      TouchedAlike(env, start, w, t, f);
    }
  }

  lemma TouchThenGetProceeds(env: Env, c: Session, f: Frame, ttl: int)
    requires Width(c.backend) > 0
    ensures Proceeds(env, c, TouchThenGet(env, c, f, ttl).0)
  {
    var r := TextSessions.TouchRequest(f.key, ttl);
    AskProceeds(env, c, r);
    AskProceeds(env, Ask(env, c, r).0, TextSessions.KeyRequest(Shard.Get, f.key));
  }

  /** Whatever a request asks of the cache reaches the worker it is for. */
  lemma RespondProceeds(env: Env, c: Session, f: Frame)
    requires Width(c.backend) > 0 && f.cas < TWO_TO_THE_64
    ensures Proceeds(env, c, Respond(env, c, f).0)
  {
    var r := OnlyRequest(f, Next(env, c).now);
    if r.Some? {
      AskProceeds(env, c, r.value);
    } else if f.opcode == FLUSH {
      FlushProceeds(env, c, 0);
    } else if |f.extras| == 4 && (f.opcode == TOUCH || f.opcode == GAT || f.opcode == GATK) {
      var ttl := TtlIn(f.extras, Next(env, c).now);
      AskProceeds(env, c, TextSessions.TouchRequest(f.key, ttl));
      TouchThenGetProceeds(env, c, f, ttl);
    }
  }

  /** All requests of an exchange reach the workers that their keys belong to. */
  lemma {:induction false} ExchangeProceeds(env: Env, c: Session, frames: seq<Frame>)
    requires Width(c.backend) > 0 && AllTokens(frames)
    ensures Proceeds(env, c, Exchange(env, c, frames).0)
  {
    if frames != [] {
      var prefix := frames[..|frames| - 1];
      ExchangeProceeds(env, c, prefix);
      RespondProceeds(env, Exchange(env, c, prefix).0, frames[|frames| - 1]);
    }
  }

  /** The responses to any list of requests are those of one timed cache over all keys. */
  lemma {:induction false} ExchangeAlike(env: Env, start: Start, w: Session, t: Session, frames: seq<Frame>)
    requires Fair(env, start) && Alike(env, start, w, t)
    requires AllTokens(frames) && forall f :: f in frames ==> f.opcode != STAT
    requires Kept(start, Exchange(env, w, frames).0)
    ensures Exchange(env, w, frames).1 == Exchange(env, t, frames).1
    ensures Alike(env, start, Exchange(env, w, frames).0, Exchange(env, t, frames).0)
  {
    if frames != [] {
      var prefix, f := frames[..|frames| - 1], frames[|frames| - 1];
      var before := Exchange(env, w, prefix).0;
      RespondProceeds(env, before, f);
      KeptBefore(start, before, Exchange(env, w, frames).0);
      ExchangeAlike(env, start, w, t, prefix);
      RespondAlike(env, start, before, Exchange(env, t, prefix).0, f);
    }
  }

  lemma {:induction false} ExchangeContinues(env: Env, c: Session, frames: seq<Frame>, i: nat)
    requires Width(c.backend) > 0 && AllTokens(frames) && i <= |frames|
    ensures Continues(Exchange(env, c, frames[..i]).0, Exchange(env, c, frames).0)
  {
    if i == |frames| {
      assert frames[..i] == frames;
    } else {
      var prefix := frames[..|frames| - 1];
      assert prefix[..i] == frames[..i];
      ExchangeContinues(env, c, prefix, i);
      RespondProceeds(env, Exchange(env, c, prefix).0, frames[|frames| - 1]);
    }
  }

  /** The two caches give the same responses to request number `i`. */
  ghost predicate AnsweredAlike(env: Env, w: Session, t: Session, frames: seq<Frame>, i: nat)
    requires Width(w.backend) > 0 && Width(t.backend) > 0 && AllTokens(frames) && i < |frames|
  {
    var f := frames[i];
    Respond(env, Exchange(env, w, frames[..i]).0, f).1 == Respond(env, Exchange(env, t, frames[..i]).0, f).1
  }

  /** Not only all responses together are alike, but those to each request. */
  lemma EachAnsweredAlike(env: Env, start: Start, w: Session, t: Session, frames: seq<Frame>, i: nat)
    requires Fair(env, start) && Alike(env, start, w, t)
    requires AllTokens(frames) && forall f :: f in frames ==> f.opcode != STAT
    requires Kept(start, Exchange(env, w, frames).0) && i < |frames|
    ensures AnsweredAlike(env, w, t, frames, i)
  {
    var before := Exchange(env, w, frames[..i]).0;
    assert frames[..i + 1][..i] == frames[..i] && frames[i] in frames;
    assert Exchange(env, w, frames[..i + 1]).0 == Respond(env, before, frames[i]).0;
    ExchangeContinues(env, w, frames, i + 1);
    KeptBefore(start, Respond(env, before, frames[i]).0, Exchange(env, w, frames).0);
    RespondProceeds(env, before, frames[i]);
    KeptBefore(start, before, Respond(env, before, frames[i]).0);
    ExchangeAlike(env, start, w, t, frames[..i]);
    RespondAlike(env, start, before, Exchange(env, t, frames[..i]).0, frames[i]);
  }

  // ---------- Reading the responses ----------

  /** Every value answered leaves room in a response for a key and extras. */
  predicate Small(answers: seq<Shard.Response>) {
    forall i :: 0 <= i < |answers| ==> |answers[i].value| < 0x8000_0000
  }

  ghost predicate AllFit(frames: seq<Frame>) {
    forall f :: f in frames ==> Fits(f)
  }

  lemma SmallBefore(c: Session, c': Session)
    requires Continues(c, c') && Small(c'.answers)
    ensures Small(c.answers)
  {
    assert forall i :: 0 <= i < |c.answers| ==> c.answers[i] == c'.answers[i];
  }

  lemma AnswerSmall(env: Env, c: Session, r: Shard.Request)
    requires Width(c.backend) > 0 && Small(Ask(env, c, r).0.answers)
    ensures |Ask(env, c, r).1.value| < 0x8000_0000
  {
    assert Ask(env, c, r).0.answers[|c.answers|] == Ask(env, c, r).1;
  }

  lemma TouchThenGetFits(env: Env, c: Session, f: Frame, ttl: int)
    requires Width(c.backend) > 0 && Fits(f) && Small(TouchThenGet(env, c, f, ttl).0.answers)
    ensures AllFit(TouchThenGet(env, c, f, ttl).1)
  {
    var touched := Ask(env, c, TextSessions.TouchRequest(f.key, ttl));
    if touched.1.err == Shard.NoError {
      AnswerSmall(env, touched.0, TextSessions.KeyRequest(Shard.Get, f.key));
    }
  }

  lemma AnsweredFits(f: Frame, answer: Shard.Response, status: nat, withKey: bool, quiet: bool)
    requires Fits(f) && |answer.value| < 0x8000_0000 && status < 0x1_0000
    ensures Fits(TokenOr(f, answer, status)) && Fits(CountedResponse(f, answer)) && Fits(Bare(f, status))
    ensures AllFit(GotResponse(f, answer, withKey, quiet))
  {
  }

  /** The responses to a request that fits fit as well. */
  lemma ResponsesFit(env: Env, c: Session, f: Frame)
    requires Width(c.backend) > 0 && Fits(f) && f.opcode != STAT && Small(Respond(env, c, f).0.answers)
    ensures AllFit(Respond(env, c, f).1)
  {
    var r := OnlyRequest(f, Next(env, c).now);
    if r.Some? {
      var answer := Ask(env, c, r.value).1;
      AnswerSmall(env, c, r.value);
      AnsweredFits(f, answer, ITEM_NOT_STORED, f.opcode == GETK || f.opcode == GETKQ,
                   f.opcode == GETQ || f.opcode == GETKQ);
    } else if |f.extras| == 4 && (f.opcode == GAT || f.opcode == GATK) {
      TouchThenGetFits(env, c, f, TtlIn(f.extras, Next(env, c).now));
    }
  }

  lemma {:induction false} ExchangeFits(env: Env, c: Session, frames: seq<Frame>)
    requires Width(c.backend) > 0 && AllTokens(frames) && AllFit(frames) && forall f :: f in frames ==> f.opcode != STAT
    requires Small(Exchange(env, c, frames).0.answers)
    ensures AllFit(Exchange(env, c, frames).1)
  {
    if frames != [] {
      var prefix, f := frames[..|frames| - 1], frames[|frames| - 1];
      var before := Exchange(env, c, prefix).0;
      assert f in frames;
      RespondProceeds(env, before, f);
      SmallBefore(before, Exchange(env, c, frames).0);
      ExchangeFits(env, c, prefix);
      ResponsesFit(env, before, f);
    }
  }

  /**
    From requests to responses: a client sends requests in one stream. They are served as they were
    sent; the responses are those of one timed cache; and the client reads them all back.
   */
  lemma StreamAnswered(env: Env, shards: seq<Shard.State>, flat: FlatCache.Flat, times: seq<nat>, frames: seq<Frame>)
    returns (held: nat -> bool)
    requires env.cfg.maxMemory <= 0 && shards != [] && FlatCache.FlatAgree(shards, flat, times)
    requires AllTokens(frames) && AllFit(frames)
    requires forall f :: f in frames ==> f.opcode != QUIT && f.opcode != STAT
    requires OthersRouted(env, |shards|)
    ensures BinaryServer.Served(PrintAll(REQUEST_MAGIC, frames)) == frames
    ensures BinaryServer.InBounds(PrintAll(REQUEST_MAGIC, frames))
    ensures var (after, responses) := Exchange(env, Begin(Workers(shards)), frames);
            FlatCache.ClockedAll(times, after.log) ==>
              && responses == Exchange(env, Begin(Timed(flat, held)), frames).1
              && (forall i :: 0 <= i < |frames| ==>
                    AnsweredAlike(env, Begin(Workers(shards)), Begin(Timed(flat, held)), frames, i))
              && (Small(after.answers) ==>
                    ParseAll(RESPONSE_MAGIC, PrintAll(RESPONSE_MAGIC, responses)) == responses)
  {
    var begin := Begin(Workers(shards));
    var (after, responses) := Exchange(env, begin, frames);
    assert PrintAll(REQUEST_MAGIC, frames) + [] == PrintAll(REQUEST_MAGIC, frames);
    BinaryServer.ServedAsSent(frames, [], PrintAll(REQUEST_MAGIC, frames));
    assert frames + [] == frames;
    held := (i: nat) => i < |after.answers| && after.answers[i].err == Shard.NoError;
    var start := Start(shards, flat, times, held);
    if FlatCache.ClockedAll(times, after.log) {
      ExchangeProceeds(env, begin, frames);
      BeginAlike(env, start);
      forall i | 0 <= i < |frames|
        ensures AnsweredAlike(env, begin, Begin(Timed(flat, held)), frames, i)
      {
        EachAnsweredAlike(env, start, begin, Begin(Timed(flat, held)), frames, i);
      }
      ExchangeAlike(env, start, begin, Begin(Timed(flat, held)), frames);
      if Small(after.answers) {
        ExchangeFits(env, begin, frames);
        ParsePrintAll(RESPONSE_MAGIC, responses);
      }
    }
  }
}
