/**
  What Gets of one key report over a whole run: fresh until the TTL is over, then one request to
  refresh, then stale, then nothing, whatever else the shard serves, sweeps or evicts meanwhile.
 */
module Freshness {
  import opened Basics
  import opened Shard
  import opened ShardFacts
  import opened Runs

  // ---------- Clocks ----------

  function Start(ev: Event): nat {
    match ev case Arrive(_, clk) => clk.check case Tick(now) => now
  }

  function End(ev: Event): nat {
    match ev case Arrive(_, clk) => clk.store case Tick(now) => now
  }

  /** The last clock reading of a run that begins at `t`. */
  function Now(t: nat, evs: seq<Event>): nat {
    if evs == [] then t else End(evs[|evs| - 1])
  }

  /** The clock never goes back during a run that begins at `t`. */
  ghost predicate Clocked(t: nat, evs: seq<Event>) {
    evs != [] ==>
      var prefix, ev := evs[..|evs| - 1], evs[|evs| - 1];
      Clocked(t, prefix) && Now(t, prefix) <= Start(ev) <= End(ev)
  }

  lemma LaterStaysPast(hard: int, t: nat, u: nat)
    requires hard <= Millis(t) && t <= u
    ensures hard <= Millis(u)
  {
  }

  // ---------- Stores, touches and Gets of a key ----------

  predicate Stores(cfg: Config, s: State, ev: Event, k: Key) {
    && ev.Arrive? && ev.req.key == k && (ev.req.op.Set? || ev.req.op.Add? || ev.req.op.Replace? || ev.req.op.Cas?)
    && Handle(cfg, s, ev.req, ev.clk).1.err == NoError
  }

  predicate Touches(cfg: Config, s: State, ev: Event, k: Key) {
    ev.Arrive? && ev.req.key == k && ev.req.op.Touch? && Handle(cfg, s, ev.req, ev.clk).1.err == NoError
  }

  /** The event gives the key's entry a new lifetime. */
  predicate Renews(cfg: Config, s: State, ev: Event, k: Key) {
    Stores(cfg, s, ev, k) || Touches(cfg, s, ev, k)
  }

  predicate Gets(ev: Event, k: Key) {
    ev.Arrive? && ev.req.op.Get? && ev.req.key == k
  }

  datatype Report = Flag(value: int) | NotFound

  function ReportOf(r: Response): Report {
    if r.err == NoError then Flag(r.flags) else NotFound
  }

  /** What the Gets of a key report, in order. */
  function Reports(cfg: Config, s: State, evs: seq<Event>, k: Key): seq<Report> {
    if evs == [] then []
    else
      var prefix, ev := evs[..|evs| - 1], evs[|evs| - 1];
      var before := Run(cfg, s, prefix);
      Reports(cfg, s, prefix, k) +
      if Gets(ev, k) then [ReportOf(Handle(cfg, before, ev.req, ev.clk).1)] else []
  }

  /** No step of the run stores the key, nor touches it unless `touches` allows that. */
  ghost predicate Undisturbed(cfg: Config, s: State, evs: seq<Event>, k: Key, touches: bool) {
    evs != [] ==>
      var prefix, ev := evs[..|evs| - 1], evs[|evs| - 1];
      && Undisturbed(cfg, s, prefix, k, touches)
      && !Stores(cfg, Run(cfg, s, prefix), ev, k)
      && (touches || !Touches(cfg, Run(cfg, s, prefix), ev, k))
  }

  // ---------- One step ----------

  /** The refresh mark after a step that does not store the key. */
  predicate MarkedBy(e: Entry, ev: Event, k: Key) {
    e.refreshing || (Gets(ev, k) && Stale(e, ev.clk.check))
  }

  /** A step that does not store the key drops its entry or keeps its lifetime and its refresh mark. */
  lemma StepKeepsLife(cfg: Config, s: State, ev: Event, k: Key)
    requires UniqueKeys(s.lru) && !Stores(cfg, s, ev, k)
    ensures UniqueKeys(Step(cfg, s, ev).lru)
    ensures var before, after := Find(s.lru, k), Find(Step(cfg, s, ev).lru, k);
            after.Some? ==>
              && before.Some? && after.value.refreshing == MarkedBy(before.value, ev, k)
              && (!Touches(cfg, s, ev, k) ==>
                    after.value.soft == before.value.soft && after.value.hard == before.value.hard)
  {
    OtherKeys(cfg, s, ev, k);
    FindPresent(s.lru, k);
    if ev.Arrive? && ev.req.key == k {
      FindAfterWithout(s.lru, k, k);
      PutSteps(s.lru, k);
      match ev.req.op
      case Append | Prepend =>
        RoomFind(cfg, s, |ev.req.value|, k);
        PutSteps(MakeRoom(cfg, s, |ev.req.value|).lru, k);
      case Get | Delete | Touch | Incr | Decr | FlushAll | Stats | Other | Set | Add | Replace | Cas =>
    }
  }

  /** What a Get reports, from the entry it finds. */
  lemma GetReports(cfg: Config, s: State, ev: Event, k: Key)
    requires Gets(ev, k)
    ensures ReportOf(Handle(cfg, s, ev.req, ev.clk).1) ==
            var found := Lookup(s, k, ev.clk.check);
            if found.None? then NotFound else Flag(Flags(found.value, ev.clk.check))
    ensures Lookup(s, k, ev.clk.check).None? ==> Find(Step(cfg, s, ev).lru, k) == None
  {
    FindAfterWithout(s.lru, k, k);
  }

  // ---------- The order of the reports ----------

  datatype Phase = Fresh | Refreshing | Gone

  function NextPhase(phase: Phase, report: Report): Option<Phase> {
    match (phase, report)
    case (Fresh, Flag(0)) => Some(Fresh)
    case (Fresh, Flag(3)) => Some(Refreshing)
    case (Refreshing, Flag(1)) => Some(Refreshing)
    case (_, NotFound) => Some(Gone)
    case _ => None
  }

  /** Accepts exactly the sequences 0* (3 1*)? NotFound*, and says how far such a sequence has come. */
  function PhaseAfter(reports: seq<Report>): Option<Phase> {
    if reports == [] then Some(Fresh)
    else
      var before := PhaseAfter(reports[..|reports| - 1]);
      if before.None? then None else NextPhase(before.value, reports[|reports| - 1])
  }

  /** What is left of the key's entry once its Gets have come as far as `phase`. */
  ghost predicate InPhase(s: State, k: Key, phase: Phase, now: nat) {
    var found := Find(s.lru, k);
    found.Some? ==>
      match phase
      case Fresh => !found.value.refreshing
      case Refreshing => found.value.refreshing && Stale(found.value, now)
      case Gone => Expired(found.value, now)
  }

  lemma StepKeepsPhase(cfg: Config, s: State, ev: Event, k: Key, phase: Phase, now: nat)
    requires UniqueKeys(s.lru) && !Stores(cfg, s, ev, k) && !Touches(cfg, s, ev, k) && now <= Start(ev) <= End(ev)
    requires InPhase(s, k, phase, now)
    ensures if Gets(ev, k) then
              var next := NextPhase(phase, ReportOf(Handle(cfg, s, ev.req, ev.clk).1));
              next.Some? && InPhase(Step(cfg, s, ev), k, next.value, End(ev))
            else InPhase(Step(cfg, s, ev), k, phase, End(ev))
  {
    StepKeepsLife(cfg, s, ev, k);
    var found := Find(s.lru, k);
    if found.Some? && 0 < found.value.soft <= Millis(now) { LaterStaysPast(found.value.soft, now, Start(ev)); }
    if found.Some? && 0 < found.value.hard <= Millis(now) { LaterStaysPast(found.value.hard, now, Start(ev)); }
    if Gets(ev, k) {
      GetReports(cfg, s, ev, k);
    }
  }

  lemma OneMore(reports: seq<Report>, report: Report)
    ensures PhaseAfter(reports + [report]) ==
            if PhaseAfter(reports).None? then None else NextPhase(PhaseAfter(reports).value, report)
    ensures RefreshCount(reports + [report]) == RefreshCount(reports) + if report == Flag(3) then 1 else 0
  {
    assert (reports + [report])[..|reports|] == reports;
  }

  /** The key has just been stored: it is there, and nobody has been asked to refresh it. */
  ghost predicate JustStored(s: State, k: Key) {
    UniqueKeys(s.lru) && Find(s.lru, k).Some? && !Find(s.lru, k).value.refreshing
  }

  lemma {:induction false} RunKeepsPhase(cfg: Config, s: State, evs: seq<Event>, k: Key, t: nat)
    requires JustStored(s, k) && Clocked(t, evs) && Undisturbed(cfg, s, evs, k, false)
    ensures UniqueKeys(Run(cfg, s, evs).lru)
    ensures var phase := PhaseAfter(Reports(cfg, s, evs, k));
            phase.Some? && InPhase(Run(cfg, s, evs), k, phase.value, Now(t, evs))
  {
    if evs != [] {
      var prefix, ev := evs[..|evs| - 1], evs[|evs| - 1];
      RunKeepsPhase(cfg, s, prefix, k, t);
      var before, reports := Run(cfg, s, prefix), Reports(cfg, s, prefix, k);
      OtherKeys(cfg, before, ev, k);
      StepKeepsPhase(cfg, before, ev, k, PhaseAfter(reports).value, Now(t, prefix));
      if Gets(ev, k) {
        OneMore(reports, ReportOf(Handle(cfg, before, ev.req, ev.clk).1));
      } else {
        assert reports + [] == reports;
      }
    }
  }

  /**
    From a store of a key to its next store or touch, whatever else happens, its Gets report
    0* (3 1*)? NotFound*: exactly one of them is asked to refresh before any is told it is stale.
   */
  lemma GetsReportInOrder(cfg: Config, s: State, evs: seq<Event>, k: Key, t: nat)
    requires JustStored(s, k) && Clocked(t, evs) && Undisturbed(cfg, s, evs, k, false)
    ensures PhaseAfter(Reports(cfg, s, evs, k)).Some?
  {
    RunKeepsPhase(cfg, s, evs, k, t);
  }

  /** A store leaves the key just stored. */
  lemma StoreMakesJustStored(cfg: Config, s: State, ev: Event, k: Key)
    requires UniqueKeys(s.lru) && Stores(cfg, s, ev, k)
    ensures JustStored(Step(cfg, s, ev), k)
    ensures var e := Find(Step(cfg, s, ev).lru, k).value;
            && e.soft == SoftExpiry(cfg, ev.req.ttl, ev.clk.store)
            && e.hard == HardExpiry(cfg, ev.req.ttl, ev.clk.store)
            && e.value == ev.req.value
  {
    SetFind(cfg, s, k, ev.req.value, ev.req.ttl, ev.clk.store, k);
  }

  // ---------- One refresh between stores ----------

  function RefreshCount(reports: seq<Report>): nat {
    if reports == [] then 0
    else RefreshCount(reports[..|reports| - 1]) + if reports[|reports| - 1] == Flag(3) then 1 else 0
  }

  lemma {:induction false} RefreshMarked(cfg: Config, s: State, evs: seq<Event>, k: Key)
    requires JustStored(s, k) && Undisturbed(cfg, s, evs, k, true)
    ensures UniqueKeys(Run(cfg, s, evs).lru)
    ensures var n := RefreshCount(Reports(cfg, s, evs, k)); var found := Find(Run(cfg, s, evs).lru, k);
            n <= 1 && (found.Some? ==> found.value.refreshing == (n == 1))
  {
    if evs != [] {
      var prefix, ev := evs[..|evs| - 1], evs[|evs| - 1];
      RefreshMarked(cfg, s, prefix, k);
      var before, reports := Run(cfg, s, prefix), Reports(cfg, s, prefix, k);
      StepKeepsLife(cfg, before, ev, k);
      if Gets(ev, k) {
        GetReports(cfg, before, ev, k);
        OneMore(reports, ReportOf(Handle(cfg, before, ev.req, ev.clk).1));
      } else {
        assert reports + [] == reports;
      }
    }
  }

  /** Between two stores of a key at most one Get is asked to refresh it, even across touches. */
  lemma OneRefreshBetweenStores(cfg: Config, s: State, evs: seq<Event>, k: Key)
    requires JustStored(s, k) && Undisturbed(cfg, s, evs, k, true)
    ensures RefreshCount(Reports(cfg, s, evs, k)) <= 1
  {
    RefreshMarked(cfg, s, evs, k);
  }

  // ---------- When the flags change ----------

  ghost predicate Present(s: State, k: Key) {
    UniqueKeys(s.lru) && Find(s.lru, k).Some?
  }

  /** A store or a touch leaves the key there, with a lifetime from its own TTL and clock. */
  lemma RenewalSetsLife(cfg: Config, s: State, ev: Event, k: Key)
    requires UniqueKeys(s.lru) && Renews(cfg, s, ev, k)
    ensures Present(Step(cfg, s, ev), k)
    ensures var e := Find(Step(cfg, s, ev).lru, k).value;
            && e.soft == SoftExpiry(cfg, ev.req.ttl, ev.clk.store)
            && e.hard == HardExpiry(cfg, ev.req.ttl, ev.clk.store)
  {
    if Stores(cfg, s, ev, k) {
      StoreMakesJustStored(cfg, s, ev, k);
    } else {
      FindPresent(s.lru, k);
      PutSteps(s.lru, k);
    }
  }

  lemma {:induction false} LifetimeKept(cfg: Config, s: State, evs: seq<Event>, k: Key)
    requires Present(s, k) && Undisturbed(cfg, s, evs, k, false)
    ensures UniqueKeys(Run(cfg, s, evs).lru)
    ensures var found, e := Find(Run(cfg, s, evs).lru, k), Find(s.lru, k).value;
            found.Some? ==> found.value.soft == e.soft && found.value.hard == e.hard
  {
    if evs != [] {
      var prefix, ev := evs[..|evs| - 1], evs[|evs| - 1];
      LifetimeKept(cfg, s, prefix, k);
      StepKeepsLife(cfg, Run(cfg, s, prefix), ev, k);
    }
  }

  /**
    A value stored or touched at `t0` for `ttl` nanoseconds is reported fresh exactly before the
    millisecond of `t0 + ttl`, as long as it is found at all; without a TTL it stays fresh. (The code
    takes an expiry in the very first millisecond of 1970 for no expiry.)
   */
  lemma FlagTimes(cfg: Config, s: State, renewal: Event, evs: seq<Event>, get: Event, k: Key)
    requires UniqueKeys(s.lru) && Renews(cfg, s, renewal, k) && Gets(get, k)
    requires Undisturbed(cfg, Step(cfg, s, renewal), evs, k, false)
    ensures var term := if renewal.req.ttl == 0 then cfg.defaultTtl else renewal.req.ttl;
            var due := renewal.clk.store + term;
            var report := ReportOf(Handle(cfg, Run(cfg, Step(cfg, s, renewal), evs), get.req, get.clk).1);
            report.Flag? ==>
              if term <= 0 || due < 1_000_000 || get.clk.check / 1_000_000 < due / 1_000_000 then report.value == 0
              else report.value == 1 || report.value == 3
  {
    RenewalSetsLife(cfg, s, renewal, k);
    LifetimeKept(cfg, Step(cfg, s, renewal), evs, k);
    GetReports(cfg, Run(cfg, Step(cfg, s, renewal), evs), get, k);
  }
}
