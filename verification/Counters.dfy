/**
  Counters: over any run the number under a key is the sum of what was counted, and a client reads
  exactly that number from the decimal reply.
 */
module Counters {
  import opened Basics
  import opened Shard
  import opened ShardFacts
  import opened Runs
  import opened Decimal

  // ---------- Counting over runs ----------

  predicate Counts(ev: Event, k: Key) {
    ev.Arrive? && ev.req.key == k && (ev.req.op.Incr? || ev.req.op.Decr?)
  }

  /** What an ideal counter holds after a run: increments wrap at 2^64, decrements stop at zero. */
  function Tally(n: uint64, evs: seq<Event>, k: Key): uint64 {
    if evs == [] then n
    else
      var before, ev := Tally(n, evs[..|evs| - 1], k), evs[|evs| - 1];
      if !Counts(ev, k) then before
      else if ev.req.op.Incr? then (before + ev.req.delta) % TWO_TO_THE_64
      else if ev.req.delta <= before then before - ev.req.delta
      else 0
  }

  function Deltas(evs: seq<Event>, k: Key): nat {
    if evs == [] then 0
    else Deltas(evs[..|evs| - 1], k) + if Counts(evs[|evs| - 1], k) then evs[|evs| - 1].req.delta else 0
  }

  function CountOf(evs: seq<Event>, k: Key): nat {
    if evs == [] then 0 else CountOf(evs[..|evs| - 1], k) + if Counts(evs[|evs| - 1], k) then 1 else 0
  }

  /** Only counts, Gets and touches of the key, and the key is still there after each step. */
  ghost predicate OnlyCounted(cfg: Config, s: State, evs: seq<Event>, k: Key) {
    evs != [] ==>
      var prefix, ev := evs[..|evs| - 1], evs[|evs| - 1];
      && OnlyCounted(cfg, s, prefix, k)
      && (ev.Arrive? && ev.req.key == k ==> Counts(ev, k) || ev.req.op.Get? || ev.req.op.Touch? || ev.req.op.Stats?)
      && (Counts(ev, k) ==> Handle(cfg, Run(cfg, s, prefix), ev.req, ev.clk).1.err == NoError)
      && Find(Run(cfg, s, evs).lru, k).Some?
  }

  /** The number under a key, if there is one. */
  function NumberAt(s: State, k: Key): Option<nat> {
    var found := Find(s.lru, k);
    if found.None? then None else ParseUint(found.value.value, TWO_TO_THE_64)
  }

  /** A step that does not count leaves the value of a key that stays. */
  lemma StepKeepsValue(cfg: Config, s: State, ev: Event, k: Key)
    requires UniqueKeys(s.lru) && Find(Step(cfg, s, ev).lru, k).Some?
    requires ev.Arrive? && ev.req.key == k ==> ev.req.op.Get? || ev.req.op.Touch? || ev.req.op.Stats?
    ensures Find(s.lru, k).Some? && Find(Step(cfg, s, ev).lru, k).value.value == Find(s.lru, k).value.value
  {
    OtherKeys(cfg, s, ev, k);
    if ev.Arrive? && ev.req.key == k {
      FindPresent(s.lru, k);
      FindAfterWithout(s.lru, k, k);
      PutSteps(s.lru, k);
    }
  }

  /** A count that succeeds finds a number, stores the next one and answers with it. */
  lemma StepCounts(cfg: Config, s: State, ev: Event, k: Key)
    requires UniqueKeys(s.lru) && Counts(ev, k) && Handle(cfg, s, ev.req, ev.clk).1.err == NoError
    ensures NumberAt(s, k).Some? && Find(Step(cfg, s, ev).lru, k).Some?
    ensures var text := Format(Arith(NumberAt(s, k).value, ev.req.delta, ev.req.op.Incr?));
            Find(Step(cfg, s, ev).lru, k).value.value == text && Handle(cfg, s, ev.req, ev.clk).1.value == text
  {
    FindPresent(s.lru, k);
    PutSteps(s.lru, k);
  }

  /**
    Starting from a number, whatever else the shard serves, the key holds the tally of its counts, in
    canonical notation once there was one.
   */
  lemma {:induction false} RunCounts(cfg: Config, s: State, evs: seq<Event>, k: Key)
    requires UniqueKeys(s.lru) && NumberAt(s, k).Some? && OnlyCounted(cfg, s, evs, k)
    ensures UniqueKeys(Run(cfg, s, evs).lru) && Find(Run(cfg, s, evs).lru, k).Some?
    ensures NumberAt(Run(cfg, s, evs), k) == Some(Tally(NumberAt(s, k).value, evs, k))
    ensures CountOf(evs, k) > 0 ==>
              Find(Run(cfg, s, evs).lru, k).value.value == Format(Tally(NumberAt(s, k).value, evs, k))
  {
    if evs != [] {
      var prefix, ev := evs[..|evs| - 1], evs[|evs| - 1];
      var before := Run(cfg, s, prefix);
      RunCounts(cfg, s, prefix, k);
      OtherKeys(cfg, before, ev, k);
      if Counts(ev, k) {
        StepCounts(cfg, before, ev, k);
        ParseFormat(Arith(NumberAt(before, k).value, ev.req.delta, ev.req.op.Incr?), TWO_TO_THE_64);
      } else {
        StepKeepsValue(cfg, before, ev, k);
      }
    }
  }

  /** Increments alone add up, modulo 2^64. */
  lemma {:induction false} IncrementsAddUp(n: uint64, evs: seq<Event>, k: Key)
    requires forall i :: 0 <= i < |evs| && Counts(evs[i], k) ==> evs[i].req.op.Incr?
    ensures Tally(n, evs, k) == (n + Deltas(evs, k)) % TWO_TO_THE_64
  {
    if evs != [] {
      IncrementsAddUp(n, evs[..|evs| - 1], k);
    }
  }

  /** Decrements alone subtract, down to zero and no further. */
  lemma {:induction false} DecrementsFloor(n: uint64, evs: seq<Event>, k: Key)
    requires forall i :: 0 <= i < |evs| && Counts(evs[i], k) ==> evs[i].req.op.Decr?
    ensures Tally(n, evs, k) == if Deltas(evs, k) <= n then n - Deltas(evs, k) else 0
  {
    if evs != [] {
      DecrementsFloor(n, evs[..|evs| - 1], k);
    }
  }

  /** What a run of increments leaves and what its last one answers. */
  lemma CounterHoldsSum(cfg: Config, s: State, evs: seq<Event>, k: Key)
    requires UniqueKeys(s.lru) && NumberAt(s, k).Some? && OnlyCounted(cfg, s, evs, k) && CountOf(evs, k) > 0
    requires forall i :: 0 <= i < |evs| && Counts(evs[i], k) ==> evs[i].req.op.Incr?
    ensures Find(Run(cfg, s, evs).lru, k).Some?
    ensures Find(Run(cfg, s, evs).lru, k).value.value ==
            Format((NumberAt(s, k).value + Deltas(evs, k)) % TWO_TO_THE_64)
    ensures Counts(evs[|evs| - 1], k) ==>
              Answer(cfg, s, evs, |evs| - 1).value.value == Find(Run(cfg, s, evs).lru, k).value.value
  {
    RunCounts(cfg, s, evs, k);
    IncrementsAddUp(NumberAt(s, k).value, evs, k);
    if Counts(evs[|evs| - 1], k) {
      RunCounts(cfg, s, evs[..|evs| - 1], k);
      StepCounts(cfg, Run(cfg, s, evs[..|evs| - 1]), evs[|evs| - 1], k);
    }
  }

  // ---------- Reading the reply ----------

  /** The digits of a string, in order. */
  function DigitsOf(s: Bytes): (digits: Bytes)
    ensures AllDigits(digits)
  {
    if s == [] then [] else DigitsOf(s[..|s| - 1]) + if IsDigit(s[|s| - 1]) then [s[|s| - 1]] else []
  }

  lemma {:induction false} NothingButDigits(s: Bytes)
    requires AllDigits(s)
    ensures DigitsOf(s) == s
  {
    if s != [] {
      var init, last := s[..|s| - 1], s[|s| - 1];
      assert s == init + [last];
      assert IsDigit(last);
      NothingButDigits(init);
    }
  }

  lemma {:induction false} PrefixValue(s: Bytes, i: nat)
    requires AllDigits(s) && i <= |s|
    ensures Value(s[..i]) <= Value(s)
  {
    if i < |s| {
      PrefixValue(s[..|s| - 1], i);
      assert s[..|s| - 1][..i] == s[..i];
    } else {
      assert s[..i] == s;
    }
  }

  function Wrapped(n: nat): uint64 {
    n % TWO_TO_THE_64
  }

  /** The number the digits of a string denote, in 64 bits. */
  function Denoted(s: Bytes): uint64 {
    Wrapped(Value(DigitsOf(s)))
  }

  lemma OneDigitMore(v: nat, digit: nat)
    ensures Wrapped(Wrapped(v) * 10 + digit) == Wrapped(v * 10 + digit)
  {
    assert v * 10 + digit == v % TWO_TO_THE_64 * 10 + digit + v / TWO_TO_THE_64 * 10 * TWO_TO_THE_64;
    assert (v % TWO_TO_THE_64 * 10 + digit) % TWO_TO_THE_64 == (v * 10 + digit) % TWO_TO_THE_64;
  }

  /** One more byte of a reply, in the number it denotes. */
  lemma OneByteMore(reply: Bytes, i: nat)
    requires i < |reply|
    ensures Denoted(reply[..i + 1]) ==
            if IsDigit(reply[i]) then Wrapped(Denoted(reply[..i]) * 10 + (reply[i] - ZERO)) else Denoted(reply[..i])
  {
    var before, now := DigitsOf(reply[..i]), DigitsOf(reply[..i + 1]);
    assert reply[..i + 1][..i] == reply[..i];
    if IsDigit(reply[i]) {
      assert now[..|now| - 1] == before;
      OneDigitMore(Value(before), reply[i] - ZERO);
    } else {
      assert now == before;
    }
  }

  /** Reads the digits of a reply into a 64-bit number; other bytes are passed over. */
  method DecodeReply(reply: Bytes) returns (val: uint64)
    ensures val == Denoted(reply)
    ensures forall n: uint64 :: reply == Format(n) ==> val == n
  {
    val := 0;
    for i := 0 to |reply|
      invariant val == Denoted(reply[..i])
    {
      OneByteMore(reply, i);
      var b := reply[i];
      if ZERO <= b <= ZERO + 9 {
        val := Wrapped(val * 10 + (b - ZERO));
      }
    }
    assert reply[..|reply|] == reply;
    forall n: uint64 | reply == Format(n)
      ensures val == n
    {
      FormatDenotes(n);
      NothingButDigits(reply);
    }
  }

  /** While a counter's reply is read, no intermediate number overflows. */
  lemma NoOverflow(n: uint64, i: nat)
    requires i <= |Format(n)|
    ensures AllDigits(Format(n)) && Value(Format(n)[..i]) < TWO_TO_THE_64
  {
    FormatDenotes(n);
    PrefixValue(Format(n), i);
  }
}
