/**
  Compare-and-swap tokens over whole runs of a shard: every token is issued once, and a token that
  still matches proves that nothing was written under its key since it was issued.

  Tokens come from a 64-bit counter, so the run-level statements hold until the counter wraps.
 */
module CasTokens {
  import opened Basics
  import opened Shard
  import opened ShardFacts
  import opened Runs

  /** The counter cannot wrap within `steps` steps. */
  predicate Room(s: State, steps: nat) {
    s.casCounter + steps < TWO_TO_THE_64
  }

  /** Stored tokens have been issued, and no two keys share one. */
  ghost predicate TokensValid(s: State) {
    && UniqueKeys(s.lru)
    && (forall k :: Find(s.lru, k).Some? ==> Find(s.lru, k).value.cas <= s.casCounter)
    && (forall j, k :: j != k && Find(s.lru, j).Some? && Find(s.lru, k).Some? ==>
          Find(s.lru, j).value.cas != Find(s.lru, k).value.cas)
  }

  /** The same write of a key: everything but the refresh mark agrees. */
  predicate SameVersion(e: Entry, f: Entry) {
    e == f.(refreshing := e.refreshing)
  }

  /** The token a step issues: the counter's new value, which the request's answer carries. */
  function Issued(cfg: Config, s: State, ev: Event): Option<uint64> {
    var t := Step(cfg, s, ev);
    if t.casCounter == s.casCounter then None else Some(t.casCounter)
  }

  // ---------- One step ----------

  /**
    After a step a key is absent, holds the version it held, or holds a new one with the next token.
    Only the step's own answer carries that token.
   */
  lemma StepVersion(cfg: Config, s: State, ev: Event, k: Key)
    requires UniqueKeys(s.lru) && Room(s, 1)
    ensures var t, before, after := Step(cfg, s, ev), Find(s.lru, k), Find(Step(cfg, s, ev).lru, k);
            && (t.casCounter == s.casCounter || t.casCounter == s.casCounter + 1)
            && (after.None?
                || (before.Some? && SameVersion(before.value, after.value))
                || (Issued(cfg, s, ev) == Some(after.value.cas) && ev.req.key == k))
            && (Issued(cfg, s, ev).Some? ==>
                  && ev.Arrive? && Handle(cfg, s, ev.req, ev.clk).1.err == NoError
                  && Handle(cfg, s, ev.req, ev.clk).1.cas == t.casCounter
                  && Find(t.lru, ev.req.key).Some? && Find(t.lru, ev.req.key).value.cas == t.casCounter)
  {
    OtherKeys(cfg, s, ev, k);
    if ev.Arrive? {
      OwnKey(cfg, s, ev.req, ev.clk);
    }
  }

  lemma OwnKey(cfg: Config, s: State, r: Request, clk: Clock)
    requires UniqueKeys(s.lru) && Room(s, 1)
    ensures var (t, answer) := Handle(cfg, s, r, clk);
            var before, after := Find(s.lru, r.key), Find(t.lru, r.key);
            || (t.casCounter == s.casCounter &&
                (after.None? || (before.Some? && SameVersion(before.value, after.value))))
            || (t.casCounter == s.casCounter + 1 == answer.cas && answer.err == NoError
                && after.Some? && after.value.cas == answer.cas)
  {
    FindPresent(s.lru, r.key);
    FindAfterWithout(s.lru, r.key, r.key);
    PutSteps(s.lru, r.key);
    match r.op
    case Set | Add | Replace | Cas =>
      SetFind(cfg, s, r.key, r.value, r.ttl, clk.store, r.key);
      MakeRoomKeepsCounter(cfg, s, |r.key| + |r.value| - SizeAt(s.lru, r.key));
    case Append | Prepend =>
      RoomFind(cfg, s, |r.value|, r.key);
      PutSteps(MakeRoom(cfg, s, |r.value|).lru, r.key);
      MakeRoomKeepsCounter(cfg, s, |r.value|);
    case Get | Delete | Touch | Incr | Decr | FlushAll | Stats | Other =>
  }

  lemma StepKeepsTokensValid(cfg: Config, s: State, ev: Event)
    requires TokensValid(s) && Room(s, 1)
    ensures TokensValid(Step(cfg, s, ev))
  {
    OtherKeys(cfg, s, ev, []);
    var t := Step(cfg, s, ev);
    forall k
      ensures Find(t.lru, k).Some? ==> Find(t.lru, k).value.cas <= t.casCounter
    {
      StepVersion(cfg, s, ev, k);
    }
    forall j, k | j != k && Find(t.lru, j).Some? && Find(t.lru, k).Some?
      ensures Find(t.lru, j).value.cas != Find(t.lru, k).value.cas
    {
      StepVersion(cfg, s, ev, j);
      StepVersion(cfg, s, ev, k);
    }
  }

  // ---------- Runs ----------

  lemma NextTokensValid(cfg: Config, s: State, evs: seq<Event>, i: nat)
    requires i < |evs| && TokensValid(Before(cfg, s, evs, i)) && Room(Before(cfg, s, evs, i), |evs| - i)
    ensures TokensValid(Before(cfg, s, evs, i + 1)) && Room(Before(cfg, s, evs, i + 1), |evs| - i - 1)
    ensures var before, after := Before(cfg, s, evs, i).casCounter, Before(cfg, s, evs, i + 1).casCounter;
            before <= after <= before + 1
  {
    BeforeNext(cfg, s, evs, i);
    StepKeepsTokensValid(cfg, Before(cfg, s, evs, i), evs[i]);
    StepVersion(cfg, Before(cfg, s, evs, i), evs[i], []);
  }

  /** In every state of a run the stored tokens are distinct and already issued. */
  lemma {:induction false} RunKeepsTokensValid(cfg: Config, s: State, evs: seq<Event>, i: nat, j: nat)
    requires TokensValid(s) && Room(s, |evs|) && i <= j <= |evs|
    ensures TokensValid(Before(cfg, s, evs, j)) && Room(Before(cfg, s, evs, j), |evs| - j)
    ensures Before(cfg, s, evs, i).casCounter <= Before(cfg, s, evs, j).casCounter <= s.casCounter + j
  {
    if j == 0 {
      assert evs[..0] == [];
    } else {
      RunKeepsTokensValid(cfg, s, evs, if i == j then i - 1 else i, j - 1);
      NextTokensValid(cfg, s, evs, j - 1);
    }
  }

  /** The token event `i` of a run issues. */
  function Token(cfg: Config, s: State, evs: seq<Event>, i: nat): Option<uint64>
    requires i < |evs|
  {
    Issued(cfg, Before(cfg, s, evs, i), evs[i])
  }

  /** Issued tokens strictly increase, across deletes, evictions and flushes: no token is issued twice. */
  lemma TokensIncrease(cfg: Config, s: State, evs: seq<Event>, i: nat, j: nat)
    requires TokensValid(s) && Room(s, |evs|) && i < j < |evs|
    requires Token(cfg, s, evs, i).Some? && Token(cfg, s, evs, j).Some?
    ensures s.casCounter < Token(cfg, s, evs, i).value < Token(cfg, s, evs, j).value
    ensures Answer(cfg, s, evs, i).Some? && Answer(cfg, s, evs, i).value.cas == Token(cfg, s, evs, i).value
  {
    assert evs[..0] == [];
    RunKeepsTokensValid(cfg, s, evs, 0, i);
    RunKeepsTokensValid(cfg, s, evs, i + 1, j);
    BeforeNext(cfg, s, evs, i);
    StepVersion(cfg, Before(cfg, s, evs, i), evs[i], []);
    StepVersion(cfg, Before(cfg, s, evs, j), evs[j], []);
  }

  /** The key holds the version with this token. */
  predicate Holds(s: State, k: Key, cas: uint64) {
    Find(s.lru, k).Some? && Find(s.lru, k).value.cas == cas
  }

  /** A version that is gone never comes back. */
  lemma {:induction false} NeverReturns(cfg: Config, s: State, evs: seq<Event>, k: Key, cas: uint64, i: nat, j: nat)
    requires TokensValid(s) && Room(s, |evs|) && i <= j <= |evs|
    requires cas <= Before(cfg, s, evs, i).casCounter && !Holds(Before(cfg, s, evs, i), k, cas)
    ensures !Holds(Before(cfg, s, evs, j), k, cas)
  {
    if i < j {
      NeverReturns(cfg, s, evs, k, cas, i, j - 1);
      RunKeepsTokensValid(cfg, s, evs, i, j - 1);
      BeforeNext(cfg, s, evs, j - 1);
      StepVersion(cfg, Before(cfg, s, evs, j - 1), evs[j - 1], k);
    }
  }

  /**
    No lost update and no ABA: if a key holds the same token at two times, then at every time between
    them it held that very version.
   */
  lemma {:induction false} SameTokenSameVersion(cfg: Config, s: State, evs: seq<Event>, k: Key, cas: uint64,
                                                i: nat, m: nat, j: nat)
    requires TokensValid(s) && Room(s, |evs|) && i <= m <= j <= |evs|
    requires Holds(Before(cfg, s, evs, i), k, cas) && Holds(Before(cfg, s, evs, j), k, cas)
    ensures Holds(Before(cfg, s, evs, m), k, cas)
    ensures SameVersion(Find(Before(cfg, s, evs, i).lru, k).value, Find(Before(cfg, s, evs, m).lru, k).value)
  {
    RunKeepsTokensValid(cfg, s, evs, i, i);
    RunKeepsTokensValid(cfg, s, evs, i, m);
    if !Holds(Before(cfg, s, evs, m), k, cas) {
      NeverReturns(cfg, s, evs, k, cas, m, j);
    }
    if i < m {
      SameTokenSameVersion(cfg, s, evs, k, cas, i, m - 1, j);
      RunKeepsTokensValid(cfg, s, evs, i, m - 1);
      BeforeNext(cfg, s, evs, m - 1);
      StepVersion(cfg, Before(cfg, s, evs, m - 1), evs[m - 1], k);
    }
  }

  /** Event `i` is a compare-and-swap with this key and token that succeeds. */
  predicate CasSucceeds(cfg: Config, s: State, evs: seq<Event>, i: nat, k: Key, cas: uint64)
    requires i < |evs|
  {
    && evs[i].Arrive? && evs[i].req.op.Cas? && evs[i].req.key == k && evs[i].req.cas == cas
    && Answer(cfg, s, evs, i).value.err == NoError
  }

  /** Success means the key still held the token; and the version that carried it is gone afterwards. */
  lemma CasConsumes(cfg: Config, s: State, evs: seq<Event>, i: nat, k: Key, cas: uint64)
    requires TokensValid(s) && Room(s, |evs|) && i < |evs| && CasSucceeds(cfg, s, evs, i, k, cas)
    ensures Holds(Before(cfg, s, evs, i), k, cas) && !Holds(Before(cfg, s, evs, i + 1), k, cas)
    ensures cas <= Before(cfg, s, evs, i).casCounter <= Before(cfg, s, evs, i + 1).casCounter
  {
    RunKeepsTokensValid(cfg, s, evs, i, i);
    RunKeepsTokensValid(cfg, s, evs, i, i + 1);
    BeforeNext(cfg, s, evs, i);
    SetFind(cfg, Before(cfg, s, evs, i), k, evs[i].req.value, evs[i].req.ttl, evs[i].clk.store, k);
  }

  /** At most one compare-and-swap with a given token succeeds on a key. */
  lemma CasSucceedsOnce(cfg: Config, s: State, evs: seq<Event>, i: nat, j: nat, k: Key, cas: uint64)
    requires TokensValid(s) && Room(s, |evs|) && i < |evs| && j < |evs|
    requires CasSucceeds(cfg, s, evs, i, k, cas) && CasSucceeds(cfg, s, evs, j, k, cas)
    ensures i == j
  {
    CasConsumes(cfg, s, evs, i, k, cas);
    CasConsumes(cfg, s, evs, j, k, cas);
    if i < j {
      NeverReturns(cfg, s, evs, k, cas, i + 1, j);
    } else if j < i {
      NeverReturns(cfg, s, evs, k, cas, j + 1, i);
    }
  }

  /** While a key holds a token, no step writes to it. */
  lemma NotWritten(cfg: Config, s: State, evs: seq<Event>, k: Key, cas: uint64, i: nat, m: nat, j: nat)
    requires TokensValid(s) && Room(s, |evs|) && i <= m < j <= |evs|
    requires Holds(Before(cfg, s, evs, i), k, cas) && Holds(Before(cfg, s, evs, j), k, cas)
    requires Token(cfg, s, evs, m).Some?
    ensures evs[m].Arrive? && evs[m].req.key != k
  {
    SameTokenSameVersion(cfg, s, evs, k, cas, i, m, j);
    SameTokenSameVersion(cfg, s, evs, k, cas, i, m + 1, j);
    RunKeepsTokensValid(cfg, s, evs, i, m);
    BeforeNext(cfg, s, evs, m);
    StepVersion(cfg, Before(cfg, s, evs, m), evs[m], k);
  }

  /**
    A compare-and-swap that succeeds with the token an earlier event issued overwrites exactly the
    version that event wrote, and no step in between wrote to the key.
   */
  lemma CasOverwritesIssuedVersion(cfg: Config, s: State, evs: seq<Event>, i: nat, j: nat)
    requires TokensValid(s) && Room(s, |evs|) && i < j < |evs| && Token(cfg, s, evs, i).Some? && evs[i].Arrive?
    requires CasSucceeds(cfg, s, evs, j, evs[i].req.key, Token(cfg, s, evs, i).value)
    ensures var k := evs[i].req.key;
            var written, overwritten := Find(Before(cfg, s, evs, i + 1).lru, k), Find(Before(cfg, s, evs, j).lru, k);
            written.Some? && overwritten.Some? && SameVersion(written.value, overwritten.value)
    ensures forall m :: i < m < j && Token(cfg, s, evs, m).Some? ==> evs[m].Arrive? && evs[m].req.key != evs[i].req.key
  {
    var k, cas := evs[i].req.key, Token(cfg, s, evs, i).value;
    CasConsumes(cfg, s, evs, j, k, cas);
    RunKeepsTokensValid(cfg, s, evs, i, i);
    BeforeNext(cfg, s, evs, i);
    StepVersion(cfg, Before(cfg, s, evs, i), evs[i], k);
    SameTokenSameVersion(cfg, s, evs, k, cas, i + 1, j, j);
    forall m | i < m < j && Token(cfg, s, evs, m).Some?
      ensures evs[m].Arrive? && evs[m].req.key != k
    {
      NotWritten(cfg, s, evs, k, cas, i + 1, m, j);
    }
  }
}
