/**
  Expiration times on the wire: seconds from now, or a Unix timestamp beyond thirty days. What the two
  protocols make of them, and how long the entries stored with them live.
 */
module ExpirationTimes {
  import opened Basics
  import opened Shard
  import opened Freshness
  import opened Runs
  import opened TimedCache

  const THIRTY_DAYS: int := 2592000
  const SECOND: int := 1_000_000_000

  /** A timestamp that is over when the server looks at the clock. */
  predicate IsPast(expiry: int, now: nat) {
    expiry > 2592000 && expiry * 1_000_000_000 <= now
  }

  /** The TTL of a text command: what has expired already gets a single nanosecond. */
  function TextTtl(exptime: int, now: nat): int {
    if exptime < 0 then 1
    else if exptime > THIRTY_DAYS then
      var ttl := exptime * SECOND - now;
      if ttl <= 0 then 1 else ttl
    else exptime * SECOND
  }

  /** The TTL of a binary request: it is not positive if the timestamp is over. */
  function BinaryTtl(expiry: nat, now: nat): int {
    if expiry > THIRTY_DAYS then expiry * SECOND - now else expiry * SECOND
  }

  /** A text command says that its value is not to expire. */
  predicate TextForever(cfg: Config, exptime: int) {
    exptime == 0 && cfg.defaultTtl <= 0
  }

  /**
    A binary request stores for ever also when its timestamp is over, which the protocol means to
    expire at once; only a timestamp that is over by no nanosecond gets the default TTL instead.
   */
  predicate BinaryForever(cfg: Config, expiry: nat, now: nat) {
    || (expiry == 0 && cfg.defaultTtl <= 0)
    || (IsPast(expiry, now) && (expiry * SECOND < now || cfg.defaultTtl <= 0))
  }

  /**
    The TTLs of the two protocols: when they mean no expiry; that they agree on everything but
    timestamps that are over; that a store at `store` is fresh for as many seconds as were asked, or for
    a nanosecond if the number is negative; and that it keeps a timestamp to come, up to its delay.
   */
  lemma TtlsAre(cfg: Config, exptime: int, now: nat, store: nat)
    ensures EffectiveTtl(cfg, TextTtl(exptime, now)) <= 0 <==> TextForever(cfg, exptime)
    ensures exptime >= 0 ==>
              && (EffectiveTtl(cfg, BinaryTtl(exptime, now)) <= 0 <==> BinaryForever(cfg, exptime, now))
              && (TextTtl(exptime, now) == BinaryTtl(exptime, now) <==>
                    !IsPast(exptime, now) || exptime * SECOND == now + 1)
    ensures 0 < exptime <= 2592000 ==>
              SoftExpiry(cfg, TextTtl(exptime, now), store) == store / 1_000_000 + 1000 * exptime
    ensures exptime < 0 ==> SoftExpiry(cfg, TextTtl(exptime, now), store) == (store + 1) / 1_000_000
    ensures exptime > 2592000 && !IsPast(exptime, now) && now <= store ==>
              1000 * exptime <= SoftExpiry(cfg, TextTtl(exptime, now), store)
                             <= 1000 * exptime + Millis(store - now) + 1
  {
  }

  // ---------- How long what was stored is found ----------

  /** A store or a touch of `k` goes through, the key is then left alone, and a Get of it comes at the end. */
  ghost predicate RenewedThenRead(cfg: Config, s: State, renewal: Event, evs: seq<Event>, read: Event, k: Key) {
    && UniqueKeys(s.lru) && Renews(cfg, s, renewal, k) && Gets(read, k) && renewal.clk.store >= 1_000_000
    && Undisturbed(cfg, Step(cfg, s, renewal), evs, k, false) && NotRemoved(evs, k)
    && Clocked(renewal.clk.store, evs) && Now(renewal.clk.store, evs) <= read.clk.check
  }

  function ReportAtEnd(cfg: Config, s: State, renewal: Event, evs: seq<Event>, read: Event): Report
    requires read.Arrive?
  {
    ReportOf(Handle(cfg, Run(cfg, Step(cfg, s, renewal), evs), read.req, read.clk).1)
  }

  /**
    Without a memory limit, what a text command stored or touched is found for ever if it says 0 and there is no
    default TTL, and otherwise exactly as long as its stretched TTL lasts.
   */
  lemma TextFound(cfg: Config, s: State, renewal: Event, evs: seq<Event>, read: Event, k: Key, exptime: int, now: nat)
    requires cfg.maxMemory <= 0 && RenewedThenRead(cfg, s, renewal, evs, read, k)
    requires renewal.req.ttl == TextTtl(exptime, now)
    ensures ReportAtEnd(cfg, s, renewal, evs, read).Flag? <==>
            || TextForever(cfg, exptime)
            || Millis(read.clk.check) <
               Millis(renewal.clk.store + Window(cfg, EffectiveTtl(cfg, TextTtl(exptime, now))))
  {
    TtlsAre(cfg, exptime, now, renewal.clk.store);
    FoundUntilHardExpiry(cfg, s, renewal, evs, read, k);
  }

  /** The same for a binary request, which is found for ever as well if its timestamp was over. */
  lemma BinaryFound(cfg: Config, s: State, renewal: Event, evs: seq<Event>, read: Event, k: Key, expiry: nat, now: nat)
    requires cfg.maxMemory <= 0 && RenewedThenRead(cfg, s, renewal, evs, read, k)
    requires renewal.req.ttl == BinaryTtl(expiry, now)
    ensures ReportAtEnd(cfg, s, renewal, evs, read).Flag? <==>
            || BinaryForever(cfg, expiry, now)
            || Millis(read.clk.check) <
               Millis(renewal.clk.store + Window(cfg, EffectiveTtl(cfg, BinaryTtl(expiry, now))))
  {
    TtlsAre(cfg, expiry, now, renewal.clk.store);
    FoundUntilHardExpiry(cfg, s, renewal, evs, read, k);
  }

  /**
    With or without a limit, what a text command stores or touches as expired is not found once a nanosecond,
    stretched, has passed; with a multiplier up to a million that is the next millisecond.
   */
  lemma TextExpiredIsGone(cfg: Config, s: State, renewal: Event, evs: seq<Event>, read: Event, k: Key,
                          exptime: int, now: nat)
    requires UniqueKeys(s.lru) && Renews(cfg, s, renewal, k) && Gets(read, k) && renewal.clk.store >= 1_000_000
    requires Undisturbed(cfg, Step(cfg, s, renewal), evs, k, false)
    requires (exptime < 0 || IsPast(exptime, now)) && renewal.req.ttl == TextTtl(exptime, now)
    ensures Millis(renewal.clk.store + Window(cfg, 1)) <= Millis(read.clk.check) ==>
              ReportAtEnd(cfg, s, renewal, evs, read) == NotFound
    ensures cfg.staleMultiplier <= 1_000_000.0 && Millis(renewal.clk.store) < Millis(read.clk.check) ==>
              ReportAtEnd(cfg, s, renewal, evs, read) == NotFound
  {
    assert EffectiveTtl(cfg, renewal.req.ttl) == 1;
    ShortWindow(cfg);
    if Millis(renewal.clk.store + Window(cfg, 1)) <= Millis(read.clk.check) {
      GoneAfterHardExpiry(cfg, s, renewal, evs, read, k);
    }
  }

  lemma ShortWindow(cfg: Config)
    ensures cfg.staleMultiplier <= 1_000_000.0 ==> Window(cfg, 1) <= 1_000_000
  {
  }

  /** One timestamp, one second over: gone at the next millisecond by text, there for ever by binary. */
  lemma PastTimestampDiffers() returns (cfg: Config, expiry: nat, now: nat)
    ensures IsPast(expiry, now) && BinaryForever(cfg, expiry, now) && !TextForever(cfg, expiry)
    ensures forall later: nat :: Lives(cfg, BinaryTtl(expiry, now), now, later)
    ensures forall later: nat :: Millis(now) < Millis(later) ==> !Lives(cfg, TextTtl(expiry, now), now, later)
  {
    cfg, expiry, now := Config(0, 0.0, 0), 1_000_000_000, 1_000_000_001 * SECOND;
    TtlsAre(cfg, expiry, now, now);
  }
}
