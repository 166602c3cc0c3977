/**
  What the binary protocol's responses mean: each says, field by field, what the request found in the
  cache and what it left there. The cache is one timed cache over all keys, as which the workers answer.
 */
module BinaryMeanings {
  import opened Basics
  import opened BinaryFrames
  import opened BinarySessions
  import Decimal
  import opened Effects
  import ExpirationTimes
  import opened Sessions
  import opened Sharding
  import opened Shard
  import TextMeanings
  import TextSessions

  /** A response with a status and a token, and with nothing in its body. */
  function Status(f: Frame, status: nat, token: nat): Frame {
    Frame(f.opcode, [], [], [], 0, status, f.opaque32, token)
  }

  /** The TTL of an expiry that a request's extras hold. */
  function TtlFor(env: Env, c: Session, expiry: nat): int {
    ExpirationTimes.BinaryTtl(expiry, Next(env, c).now)
  }

  lemma ExpiryRead(env: Env, c: Session, expiry: nat, field: Bytes)
    requires expiry < 0x1_0000_0000 && field == BigEndian(expiry, 4)
    ensures TtlIn(field, Next(env, c).now) == TtlFor(env, c, expiry)
  {
    FieldSizes();
    ReadBack(expiry, 4);
  }

  // ---------- Storing ----------

  /** When a storage request goes through: one with a token needs an entry with that token. */
  predicate GoesThrough(f: Frame, live: Option<Entry>) {
    if f.cas > 0 then live.Some? && live.value.cas == f.cas
    else match f.opcode
         case 0x01 => true
         case 0x02 => live.None?
         case _ => live.Some?
  }

  /**
    The response to SET, ADD and REPLACE: success exactly if the value is in the cache now, for as long
    as the last four bytes of the extras say and with the token in the response; otherwise nothing has
    changed.
   */
  lemma StorageResponded(env: Env, c: Session, f: Frame, flags: Bytes, expiry: nat)
    requires Ready(c) && 0x01 <= f.opcode <= 0x03 && f.cas < TWO_TO_THE_64
    requires |flags| == 4 && expiry < 0x1_0000_0000 && f.extras == flags + BigEndian(expiry, 4)
    ensures var (c', responses) := Respond(env, c, f);
            if GoesThrough(f, Found(env, c, f.key)) then
              && NowStored(env, c, c', f.key, f.value, TtlFor(env, c, expiry))
              && responses == [Status(f, 0x0000, NewToken(env, c, f.key))]
            else Unchanged(env, c, c') && responses == [Status(f, 0x0005, 0)]
  {
    ExpiryRead(env, c, expiry, f.extras[4..]);
    StoreAsked(env, c, StoreRequest(f, Next(env, c).now));
  }

  /** The response to APPEND and PREPEND: success exactly if the joined value is in the cache now. */
  lemma ExtensionResponded(env: Env, c: Session, f: Frame)
    requires Ready(c) && (f.opcode == 0x0E || f.opcode == 0x0F) && f.extras == [] && f.cas < TWO_TO_THE_64
    ensures var (c', responses) := Respond(env, c, f);
            var live := Found(env, c, f.key);
            if live.None? then Unchanged(env, c, c') && responses == [Status(f, 0x0005, 0)]
            else
              var value := if f.opcode == 0x0E then live.value.value + f.value else f.value + live.value.value;
              && Rewrote(env, c, c', f.key, live.value, value)
              && responses == [Status(f, 0x0000, NewToken(env, c, f.key))]
  {
    ExtendAsked(env, c, ExtendRequest(f));
  }

  /** A number in the first eight bytes of the extras. */
  lemma DeltaRead(delta: nat, extras: Bytes, more: Bytes)
    requires delta < TWO_TO_THE_64 && extras == BigEndian(delta, 8) + more
    ensures Number64(extras[..8]) == delta
  {
    FieldSizes();
    ReadBack(delta, 8);
    assert extras[..8] == BigEndian(delta, 8);
  }

  /**
    The response to INCREMENT and DECREMENT: the number that is in the cache now, in eight bytes. What is
    missing or no number is answered as invalid arguments, and then nothing has changed.
   */
  lemma CountResponded(env: Env, c: Session, f: Frame, delta: nat, more: Bytes)
    requires Ready(c) && (f.opcode == 0x05 || f.opcode == 0x06) && f.cas < TWO_TO_THE_64
    requires delta < TWO_TO_THE_64 && |more| >= 12 && f.extras == BigEndian(delta, 8) + more
    ensures var (c', responses) := Respond(env, c, f);
            var live := Found(env, c, f.key);
            var n := if live.None? then None else Decimal.ParseUint(live.value.value, TWO_TO_THE_64);
            if n.None? then Unchanged(env, c, c') && responses == [Status(f, 0x0004, 0)]
            else
              var sum := CountTo(n.value, delta, f.opcode == 0x05);
              && Rewrote(env, c, c', f.key, live.value, Decimal.Format(sum))
              && responses == [Status(f, 0x0000, NewToken(env, c, f.key)).(value := BigEndian(sum, 8))]
  {
    DeltaRead(delta, f.extras, more);
    var r := TextSessions.CountRequest(f.key, delta, f.opcode == 0x05);
    CountAsked(env, c, r);
    var answer := Ask(env, c, r).1;
    if answer.err == NoError {
      var n := Decimal.ParseUint(Found(env, c, f.key).value.value, TWO_TO_THE_64).value;
      TextMeanings.DenotedAgain(CountTo(n, delta, f.opcode == 0x05), answer.value);
    }
  }

  // ---------- Reading ----------

  predicate Quiet(f: Frame) {
    f.opcode == 0x09 || f.opcode == 0x0D
  }

  /** The response that shows an entry: flags in the last byte of the extras, the key if it was asked for. */
  function Showing(f: Frame, e: Entry, now: nat): Frame {
    var key := if f.opcode == 0x0C || f.opcode == 0x0D then f.key else [];
    Frame(f.opcode, [0, 0, 0, FlagsAt(e, now)], key, e.value, 0, 0x0000, f.opaque32, e.cas)
  }

  /** The response to the four gets: the entry that is alive when the request comes, or that there is none. */
  lemma GetResponded(env: Env, c: Session, f: Frame)
    requires Ready(c) && (f.opcode == 0x00 || f.opcode == 0x09 || f.opcode == 0x0C || f.opcode == 0x0D)
    requires f.cas < TWO_TO_THE_64
    ensures var (c', responses) := Respond(env, c, f);
            var live := Found(env, c, f.key);
            && Went(env, c, [Sent(Home(f.key, Width(c.backend)), Request(Get, f.key, [], 0, 0, 0))], c')
            && responses == if live.Some? then [Showing(f, live.value, Next(env, c).clk.check)]
                            else if Quiet(f) then [] else [Status(f, 0x0001, 0)]
  {
    var r := TextSessions.KeyRequest(Get, f.key);
    assert Respond(env, c, f) == ServeGet(env, c, f);
    GetShown(env, c, f);
    AskWent(env, c, r);
  }

  lemma GetShown(env: Env, c: Session, f: Frame)
    requires Ready(c) && (f.opcode == 0x00 || f.opcode == 0x09 || f.opcode == 0x0C || f.opcode == 0x0D)
    ensures var live := Found(env, c, f.key);
            ServeGet(env, c, f).1 == if live.Some? then [Showing(f, live.value, Next(env, c).clk.check)]
                                     else if Quiet(f) then [] else [Status(f, 0x0001, 0)]
  {
    var r := TextSessions.KeyRequest(Get, f.key);
    GetAsked(env, c, r);
    GotShown(f, Ask(env, c, r).1, Found(env, c, f.key), Next(env, c).clk.check);
  }

  lemma GotShown(f: Frame, answer: Response, live: Option<Entry>, now: nat)
    requires live.None? ==> answer.err == KeyNotFound
    requires live.Some? ==>
               answer == Response(live.value.value, live.value.cas, FlagsAt(live.value, now), NoError, None)
    ensures GotResponse(f, answer, f.opcode == GETK || f.opcode == GETKQ, f.opcode == GETQ || f.opcode == GETKQ) ==
            if live.Some? then [Showing(f, live.value, now)] else if Quiet(f) then [] else [Status(f, 0x0001, 0)]
  {
  }

  // ---------- Deleting and touching ----------

  /** The response to DELETE: nothing is under the key now, and the status says whether something was. */
  lemma DeleteResponded(env: Env, c: Session, f: Frame)
    requires Ready(c) && f.opcode == 0x04 && f.cas < TWO_TO_THE_64
    ensures var (c', responses) := Respond(env, c, f);
            var done := Found(env, c, f.key).Some? || (f.key in Met(env, c).items && c.backend.held(|c.answers|));
            && Erased(env, c, c', f.key)
            && responses == [Status(f, if done then 0x0000 else 0x0001, 0)]
  {
    DeleteAsked(env, c, TextSessions.KeyRequest(Delete, f.key));
  }

  /** The response to TOUCH: success exactly if there was an entry, which has the new lifetime now. */
  lemma TouchResponded(env: Env, c: Session, f: Frame, expiry: nat)
    requires Ready(c) && f.opcode == 0x1C && f.cas < TWO_TO_THE_64
    requires expiry < 0x1_0000_0000 && f.extras == BigEndian(expiry, 4)
    ensures var (c', responses) := Respond(env, c, f);
            var live := Found(env, c, f.key);
            if live.None? then Unchanged(env, c, c') && responses == [Status(f, 0x0001, 0)]
            else
              && Prolonged(env, c, c', f.key, live.value, TtlFor(env, c, expiry))
              && responses == [Status(f, 0x0000, NewToken(env, c, f.key))]
  {
    ExpiryRead(env, c, expiry, f.extras);
    TouchAsked(env, c, TextSessions.TouchRequest(f.key, TtlFor(env, c, expiry)));
  }

  /** What a touch left, and what a Get after it found. */
  ghost predicate GatTold(env: Env, c: Session, touched: Session, c': Session, responses: seq<Frame>, f: Frame,
                          ttl: int)
    requires Ready(c) && Ready(touched)
  {
    var live, e := Found(env, c, f.key), Found(env, touched, f.key);
    if live.None? then Unchanged(env, c, c') && responses == [Status(f, 0x0001, 0)]
    else
      && Prolonged(env, c, touched, f.key, live.value, ttl)
      && Went(env, touched, [Sent(Home(f.key, Width(touched.backend)), Request(Get, f.key, [], 0, 0, 0))], c')
      && var key, token := if f.opcode == 0x1E then f.key else [], NewToken(env, c, f.key);
         responses == [if e.None? then Status(f, 0x0001, 0)
                       else Frame(f.opcode, [0, 0, 0, 0], key, e.value.value, 0, 0x0000, f.opaque32, token)]
  }

  /**
    The response to GAT and GATK: the entry is touched, and then shown as the Get after the touch finds
    it, with no flags and with the token of the touch; GATK has the key.
   */
  lemma GatResponded(env: Env, c: Session, f: Frame, expiry: nat) returns (touched: Session)
    requires Ready(c) && (f.opcode == 0x1D || f.opcode == 0x1E) && f.cas < TWO_TO_THE_64
    requires expiry < 0x1_0000_0000 && f.extras == BigEndian(expiry, 4)
    ensures Ready(touched) && |touched.answers| == |c.answers| + 1
    ensures var (c', responses) := Respond(env, c, f);
            GatTold(env, c, touched, c', responses, f, TtlFor(env, c, expiry))
  {
    ExpiryRead(env, c, expiry, f.extras);
    assert Respond(env, c, f) == TouchThenGet(env, c, f, TtlFor(env, c, expiry));
    touched := GatShown(env, c, f, TtlFor(env, c, expiry));
  }

  lemma GatShown(env: Env, c: Session, f: Frame, ttl: int) returns (touched: Session)
    requires Ready(c) && (f.opcode == 0x1D || f.opcode == 0x1E)
    ensures Ready(touched) && |touched.answers| == |c.answers| + 1
    ensures GatTold(env, c, touched, TouchThenGet(env, c, f, ttl).0, TouchThenGet(env, c, f, ttl).1, f, ttl)
  {
    var r := TextSessions.TouchRequest(f.key, ttl);
    TouchAsked(env, c, r);
    AskApplies(env, c, r);
    touched := Ask(env, c, r).0;
    GetAsked(env, touched, TextSessions.KeyRequest(Get, f.key));
    AskWent(env, touched, TextSessions.KeyRequest(Get, f.key));
  }

  // ---------- The rest ----------

  /** The response to FLUSH: every worker has been emptied in turn. */
  lemma FlushResponded(env: Env, c: Session, f: Frame)
    requires Width(c.backend) > 0 && f.opcode == 0x08 && f.cas < TWO_TO_THE_64
    ensures var (c', responses) := Respond(env, c, f);
            Went(env, c, Flushes(Width(c.backend)), c') && responses == [Status(f, 0x0000, 0)]
    ensures forall i :: 0 <= i < Width(c.backend) ==> EmptyAt(AfterFlushOf(env, c, i), i)
  {
    FlushEmpties(env, c);
  }

  /** The responses to STAT: the number of entries of all workers, every key once, and an empty one. */
  lemma StatResponded(env: Env, c: Session, f: Frame)
    requires c.backend.Workers? && Width(c.backend) > 0 && Confined(c.backend.shards)
    requires f.opcode == 0x10 && f.cas < TWO_TO_THE_64
    ensures var count := Decimal.Format(|Union(c.backend.shards)|);
            var item := Frame(0x10, [], TextMeanings.Raw("curr_items"), count, 0, 0x0000, f.opaque32, 0);
            Respond(env, c, f) == (c, [item, Status(f, 0x0000, 0)])
  {
    TextMeanings.SaidRaw("curr_items");
    assert Respond(env, c, f) == (c, StatResponses(c, f));
    TextMeanings.KeysCounted(c.backend.shards);
  }

  /** What asks nothing of the cache changes nothing there. */
  lemma OthersResponded(env: Env, c: Session, f: Frame)
    requires Width(c.backend) > 0 && f.cas < TWO_TO_THE_64
    ensures f.opcode == 0x0A ==> Respond(env, c, f) == (c, [Status(f, 0x0000, 0)])
    ensures f.opcode == 0x0B ==>
              Respond(env, c, f) == (c, [Status(f, 0x0000, 0).(value := TextMeanings.Raw("1.0.0"))])
    ensures 0x10 < f.opcode < 0x1C || f.opcode > 0x1E ==>
              Respond(env, c, f) == (c, [Status(f, 0x0081, 0)])
    ensures || (0x01 <= f.opcode <= 0x03 && |f.extras| != 8)
            || (0x05 <= f.opcode <= 0x06 && |f.extras| < 20)
            || (0x0E <= f.opcode <= 0x0F && f.extras != [])
            || (0x1C <= f.opcode <= 0x1E && |f.extras| != 4) ==>
              Respond(env, c, f) == (c, [Status(f, 0x0004, 0)])
  {
    TextMeanings.SaidRaw("1.0.0");
  }
}
