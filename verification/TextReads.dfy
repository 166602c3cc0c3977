/**
  What GET, GETS, GAT and GATS reply: for each key in order its flags, value and token as the cache had
  them when the key's request came, in bytes and as a client reads them; and nothing for the others.
 */
module TextReads {
  import opened Basics
  import Decimal
  import opened Effects
  import opened ExpirationTimes
  import opened Sessions
  import opened Sharding
  import opened Shard
  import Text = TextCommands
  import opened TextMeanings
  import Replies = TextReplies
  import opened TextSessions
  import Words

  // ---------- What is seen ----------

  /** What a connection sees of a key that it asks for next: flags, value and token of the entry alive there. */
  function Sight(env: Env, c: Session, key: Key): Option<Replies.Hit>
    requires c.backend.Timed?
  {
    var e := Found(env, c, key);
    if e.None? then None
    else Some(Replies.Hit(key, FlagsAt(e.value, Next(env, c).clk.check), e.value.value, e.value.cas))
  }

  ghost predicate AllReady(befores: seq<Session>) {
    forall i :: 0 <= i < |befores| ==> Ready(befores[i])
  }

  /** What is seen of some keys, each from a session of its own. */
  ghost function Sights(env: Env, befores: seq<Session>, keys: seq<Key>): (hits: seq<Option<Replies.Hit>>)
    requires AllReady(befores) && |befores| == |keys|
    ensures |hits| == |keys|
  {
    seq(|keys|, i requires 0 <= i < |keys| => Sight(env, befores[i], keys[i]))
  }

  /** One Get for each key, to its worker, in order. */
  function GetSent(keys: seq<Key>, workers: nat): seq<Sent>
    requires workers > 0
  {
    if keys == [] then []
    else
      var key := keys[|keys| - 1];
      GetSent(keys[..|keys| - 1], workers) + [Sent(Home(key, workers), Request(Get, key, [], 0, 0, 0))]
  }

  /** The sessions before each key of a GET: they have sent the Gets of the keys before it. */
  ghost predicate Getting(env: Env, c: Session, keys: seq<Key>, befores: seq<Session>)
    requires Ready(c)
  {
    && |befores| == |keys| && AllReady(befores)
    && forall i :: 0 <= i < |keys| ==> Went(env, c, GetSent(keys[..i], Width(c.backend)), befores[i])
  }

  /** One Get for each key, and a touch after it if the key was found. */
  function GatSent(keys: seq<Key>, hits: seq<Option<Replies.Hit>>, ttl: int, workers: nat): seq<Sent>
    requires workers > 0 && |hits| == |keys|
  {
    if keys == [] then []
    else
      var last := |keys| - 1;
      var home := Home(keys[last], workers);
      GatSent(keys[..last], hits[..last], ttl, workers) + [Sent(home, Request(Get, keys[last], [], 0, 0, 0))]
      + if hits[last].None? then [] else [Sent(home, Request(Touch, keys[last], [], ttl, 0, 0))]
  }

  /** The sessions before each key of a GAT: they have got the keys before it, and touched those found. */
  ghost predicate Gatting(env: Env, c: Session, keys: seq<Key>, ttl: int, befores: seq<Session>)
    requires Ready(c)
  {
    && |befores| == |keys| && AllReady(befores)
    && var hits := Sights(env, befores, keys);
       forall i :: 0 <= i < |keys| ==> Went(env, c, GatSent(keys[..i], hits[..i], ttl, Width(c.backend)), befores[i])
  }

  /** One more Get after some requests. */
  lemma GetOneSees(env: Env, c: Session, sent: seq<Sent>, before: Session, key: Key)
    requires Ready(c) && Ready(before) && Went(env, c, sent, before)
    ensures var (c', answer) := Ask(env, before, KeyRequest(Get, key));
            && Ready(c') && Went(env, c, sent + [Sent(Home(key, Width(c.backend)), Request(Get, key, [], 0, 0, 0))], c')
            && HitOf(key, answer) == Sight(env, before, key)
            && (answer.err == NoError <==> Sight(env, before, key).Some?)
  {
    GetAsked(env, before, KeyRequest(Get, key));
    WentOn(env, c, sent, before, Home(key, Width(c.backend)), KeyRequest(Get, key));
  }

  lemma {:induction false} GetAllSends(env: Env, c: Session, keys: seq<Key>)
    requires Ready(c)
    ensures Went(env, c, GetSent(keys, Width(c.backend)), GetAll(env, c, keys).0)
  {
    if keys == [] {
      WentNowhere(env, c);
    } else {
      var prefix, key := keys[..|keys| - 1], keys[|keys| - 1];
      GetAllSends(env, c, prefix);
      GetOneSees(env, c, GetSent(prefix, Width(c.backend)), GetAll(env, c, prefix).0, key);
    }
  }

  /** What one Get comes to. */
  function HitAt(env: Env, c: Session, key: Key): Option<Replies.Hit>
    requires Width(c.backend) > 0
  {
    HitOf(key, Ask(env, c, KeyRequest(Get, key)).1)
  }

  lemma GetLast(env: Env, c: Session, keys: seq<Key>, prefix: seq<Key>, key: Key)
    requires Ready(c) && keys == prefix + [key]
    ensures GetAll(env, c, keys).1 == GetAll(env, c, prefix).1 + [HitAt(env, GetAll(env, c, prefix).0, key)]
  {
    assert keys[..|keys| - 1] == prefix;
  }

  lemma {:induction false} GetLength(env: Env, c: Session, keys: seq<Key>)
    requires Ready(c)
    ensures |GetAll(env, c, keys).1| == |keys| && Ready(GetAll(env, c, keys).0)
  {
    if keys != [] {
      var prefix, key := keys[..|keys| - 1], keys[|keys| - 1];
      assert keys == prefix + [key];
      GetLast(env, c, keys, prefix, key);
      GetLength(env, c, prefix);
    }
  }

  lemma PrefixOfMore(hits: seq<Option<Replies.Hit>>, init: seq<Option<Replies.Hit>>, last: Option<Replies.Hit>, i: nat)
    requires hits == init + [last] && i <= |init|
    ensures |hits| == |init| + 1 && hits[..i] == init[..i]
  {
  }

  /** The first hits of a GET are those of its first keys. */
  lemma {:induction false} GetPrefix(env: Env, c: Session, keys: seq<Key>, i: nat)
    requires Ready(c) && i <= |keys|
    ensures |GetAll(env, c, keys).1| == |keys| && GetAll(env, c, keys).1[..i] == GetAll(env, c, keys[..i]).1
  {
    if i == |keys| {
      assert keys[..i] == keys;
      GetLength(env, c, keys);
    } else {
      var prefix, key := keys[..|keys| - 1], keys[|keys| - 1];
      assert keys == prefix + [key] && prefix[..i] == keys[..i];
      var (before, init) := GetAll(env, c, prefix);
      GetPrefix(env, c, prefix, i);
      GetLast(env, c, keys, prefix, key);
      PrefixOfMore(GetAll(env, c, keys).1, init, HitAt(env, before, key), i);
    }
  }

  lemma LastOfPrefix(hits: seq<Option<Replies.Hit>>, before: seq<Option<Replies.Hit>>, hit: Option<Replies.Hit>, i: nat)
    requires i < |hits| && |before| == i && hits[..i + 1] == before + [hit]
    ensures hits[i] == hit
  {
    assert hits[..i + 1][i] == hit;
  }

  lemma GetHitAt(env: Env, c: Session, keys: seq<Key>, i: nat)
    requires Ready(c) && i < |keys|
    ensures |GetAll(env, c, keys).1| == |keys| && Ready(GetAll(env, c, keys[..i]).0)
    ensures GetAll(env, c, keys).1[i] == Sight(env, GetAll(env, c, keys[..i]).0, keys[i])
  {
    var prefix := keys[..i];
    assert keys[..i + 1] == prefix + [keys[i]];
    GetPrefix(env, c, keys, i + 1);
    GetLast(env, c, keys[..i + 1], prefix, keys[i]);
    GetLength(env, c, prefix);
    var (before, hits) := GetAll(env, c, prefix);
    LastOfPrefix(GetAll(env, c, keys).1, hits, HitAt(env, before, keys[i]), i);
    GetHit(env, before, keys[i]);
  }

  lemma GetHit(env: Env, before: Session, key: Key)
    requires Ready(before)
    ensures HitAt(env, before, key) == Sight(env, before, key)
  {
    GetAsked(env, before, KeyRequest(Get, key));
  }

  /** A GET has sent one Get for each key in turn, and has seen what was alive when each of them came. */
  ghost predicate GetSeen(env: Env, c: Session, c': Session, keys: seq<Key>, befores: seq<Session>,
                          hits: seq<Option<Replies.Hit>>)
    requires Ready(c)
  {
    && Went(env, c, GetSent(keys, Width(c.backend)), c')
    && Getting(env, c, keys, befores) && hits == Sights(env, befores, keys)
  }

  lemma GetAllSees(env: Env, c: Session, keys: seq<Key>) returns (befores: seq<Session>)
    requires Ready(c)
    ensures GetSeen(env, c, GetAll(env, c, keys).0, keys, befores, GetAll(env, c, keys).1)
  {
    befores := seq(|keys|, i requires 0 <= i < |keys| => GetAll(env, c, keys[..i]).0);
    GetLength(env, c, keys);
    forall i | 0 <= i < |keys|
      ensures Ready(befores[i]) && Went(env, c, GetSent(keys[..i], Width(c.backend)), befores[i])
      ensures GetAll(env, c, keys).1[i] == Sight(env, befores[i], keys[i])
    {
      GetHitAt(env, c, keys, i);
      GetAllSends(env, c, keys[..i]);
    }
    assert GetAll(env, c, keys).1 == Sights(env, befores, keys);
    GetAllSends(env, c, keys);
  }

  /** One more Get, and a touch if the key was found. */
  lemma GetThenTouchSees(env: Env, c: Session, sent: seq<Sent>, before: Session, key: Key, ttl: int)
    requires Ready(c) && Ready(before) && Went(env, c, sent, before)
    ensures var (c', hit) := GetThenTouch(env, before, key, ttl);
            var home := Home(key, Width(c.backend));
            && Ready(c') && hit == Sight(env, before, key)
            && Went(env, c, sent + [Sent(home, Request(Get, key, [], 0, 0, 0))]
                            + (if hit.None? then [] else [Sent(home, Request(Touch, key, [], ttl, 0, 0))]), c')
  {
    var got, home := Ask(env, before, KeyRequest(Get, key)), Home(key, Width(c.backend));
    var asked := sent + [Sent(home, KeyRequest(Get, key))];
    GetOneSees(env, c, sent, before, key);
    if got.1.err == NoError {
      WentOn(env, c, asked, got.0, home, TouchRequest(key, ttl));
    } else {
      assert asked + [] == asked;
    }
  }

  lemma {:induction false} GetAndTouchAllSends(env: Env, c: Session, keys: seq<Key>, ttl: int)
    requires Ready(c)
    ensures |GetAndTouchAll(env, c, keys, ttl).1| == |keys|
    ensures Went(env, c, GatSent(keys, GetAndTouchAll(env, c, keys, ttl).1, ttl, Width(c.backend)),
                 GetAndTouchAll(env, c, keys, ttl).0)
  {
    if keys == [] {
      WentNowhere(env, c);
    } else {
      var prefix, key := keys[..|keys| - 1], keys[|keys| - 1];
      var (before, hits) := GetAndTouchAll(env, c, prefix, ttl);
      GetAndTouchAllSends(env, c, prefix, ttl);
      GetThenTouchSees(env, c, GatSent(prefix, hits, ttl, Width(c.backend)), before, key, ttl);
      assert GetAndTouchAll(env, c, keys, ttl).1[..|prefix|] == hits;
    }
  }

  lemma GatHit(env: Env, before: Session, key: Key, ttl: int)
    requires Ready(before)
    ensures GetThenTouch(env, before, key, ttl).1 == Sight(env, before, key)
  {
    GetAsked(env, before, KeyRequest(Get, key));
  }

  lemma GatLast(env: Env, c: Session, keys: seq<Key>, ttl: int, prefix: seq<Key>, key: Key)
    requires Ready(c) && keys == prefix + [key]
    ensures GetAndTouchAll(env, c, keys, ttl).1 ==
            GetAndTouchAll(env, c, prefix, ttl).1
            + [GetThenTouch(env, GetAndTouchAll(env, c, prefix, ttl).0, key, ttl).1]
  {
    assert keys[..|keys| - 1] == prefix;
  }

  lemma {:induction false} GatLength(env: Env, c: Session, keys: seq<Key>, ttl: int)
    requires Ready(c)
    ensures |GetAndTouchAll(env, c, keys, ttl).1| == |keys| && Ready(GetAndTouchAll(env, c, keys, ttl).0)
  {
    if keys != [] {
      var prefix, key := keys[..|keys| - 1], keys[|keys| - 1];
      assert keys == prefix + [key];
      GatLast(env, c, keys, ttl, prefix, key);
      GatLength(env, c, prefix, ttl);
    }
  }

  /** The first hits of a GAT are those of its first keys. */
  lemma {:induction false} GatPrefix(env: Env, c: Session, keys: seq<Key>, ttl: int, i: nat)
    requires Ready(c) && i <= |keys|
    ensures |GetAndTouchAll(env, c, keys, ttl).1| == |keys|
    ensures GetAndTouchAll(env, c, keys, ttl).1[..i] == GetAndTouchAll(env, c, keys[..i], ttl).1
  {
    if i == |keys| {
      assert keys[..i] == keys;
      GatLength(env, c, keys, ttl);
    } else {
      var prefix, key := keys[..|keys| - 1], keys[|keys| - 1];
      assert keys == prefix + [key] && prefix[..i] == keys[..i];
      var (before, init) := GetAndTouchAll(env, c, prefix, ttl);
      GatPrefix(env, c, prefix, ttl, i);
      GatLast(env, c, keys, ttl, prefix, key);
      PrefixOfMore(GetAndTouchAll(env, c, keys, ttl).1, init, GetThenTouch(env, before, key, ttl).1, i);
    }
  }

  lemma GatHitAt(env: Env, c: Session, keys: seq<Key>, ttl: int, i: nat)
    requires Ready(c) && i < |keys|
    ensures |GetAndTouchAll(env, c, keys, ttl).1| == |keys| && Ready(GetAndTouchAll(env, c, keys[..i], ttl).0)
    ensures GetAndTouchAll(env, c, keys, ttl).1[i] == Sight(env, GetAndTouchAll(env, c, keys[..i], ttl).0, keys[i])
  {
    var prefix := keys[..i];
    assert keys[..i + 1] == prefix + [keys[i]];
    GatPrefix(env, c, keys, ttl, i + 1);
    GatLast(env, c, keys[..i + 1], ttl, prefix, keys[i]);
    GatLength(env, c, prefix, ttl);
    var (before, hits) := GetAndTouchAll(env, c, prefix, ttl);
    LastOfPrefix(GetAndTouchAll(env, c, keys, ttl).1, hits, GetThenTouch(env, before, keys[i], ttl).1, i);
    GatHit(env, before, keys[i], ttl);
  }

  /** A GAT has got each key in turn, has touched those found, and has seen what was alive before that. */
  ghost predicate GatSeen(env: Env, c: Session, c': Session, keys: seq<Key>, ttl: int, befores: seq<Session>,
                          hits: seq<Option<Replies.Hit>>)
    requires Ready(c)
  {
    && Gatting(env, c, keys, ttl, befores) && hits == Sights(env, befores, keys)
    && Went(env, c, GatSent(keys, hits, ttl, Width(c.backend)), c')
  }

  lemma GetAndTouchAllSees(env: Env, c: Session, keys: seq<Key>, ttl: int) returns (befores: seq<Session>)
    requires Ready(c)
    ensures var (c', hits) := GetAndTouchAll(env, c, keys, ttl);
            GatSeen(env, c, c', keys, ttl, befores, hits)
  {
    befores := seq(|keys|, i requires 0 <= i < |keys| => GetAndTouchAll(env, c, keys[..i], ttl).0);
    var hits := GetAndTouchAll(env, c, keys, ttl).1;
    GatLength(env, c, keys, ttl);
    forall i | 0 <= i < |keys|
      ensures Ready(befores[i]) && Went(env, c, GatSent(keys[..i], hits[..i], ttl, Width(c.backend)), befores[i])
      ensures hits[i] == Sight(env, befores[i], keys[i])
    {
      GatPrefix(env, c, keys, ttl, i);
      GatHitAt(env, c, keys, ttl, i);
      GetAndTouchAllSends(env, c, keys[..i], ttl);
    }
    assert hits == Sights(env, befores, keys);
    GetAndTouchAllSends(env, c, keys, ttl);
  }

  // ---------- What is printed ----------

  /** What is printed of a key that was found. */
  function Shown(h: Replies.Hit, withCas: bool): Bytes {
    Raw("VALUE ") + h.key + Raw(" ") + Decimal.Format(h.flags) + Raw(" ") + Decimal.Format(|h.value|)
    + (if withCas then Raw(" ") + Decimal.Format(h.cas) else []) + Raw("\r\n") + h.value + Raw("\r\n")
  }

  function ShownAll(hits: seq<Option<Replies.Hit>>, withCas: bool): Bytes {
    if hits == [] then []
    else
      var last := hits[|hits| - 1];
      ShownAll(hits[..|hits| - 1], withCas) + if last.None? then [] else Shown(last.value, withCas)
  }

  lemma MarksRaw()
    ensures Replies.VALUE + [Words.SPACE] == Raw("VALUE ") && [Words.SPACE] == Raw(" ")
    ensures Replies.END + Text.LINE_END == Raw("END\r\n") && Text.LINE_END == Raw("\r\n")
  {
  }

  lemma HitShown(h: Replies.Hit, withCas: bool)
    ensures Replies.PrintHit(h, withCas) == Shown(h, withCas)
  {
    MarksRaw();
    Replies.HitLine(h, withCas);
  }

  lemma OneMoreShown(hits: seq<Option<Replies.Hit>>, hit: Option<Replies.Hit>, withCas: bool)
    requires Replies.PrintHits(Replies.Hits(hits), withCas) == ShownAll(hits, withCas)
    ensures Replies.PrintHits(Replies.Hits(hits + [hit]), withCas) == ShownAll(hits + [hit], withCas)
  {
    assert (hits + [hit])[..|hits|] == hits;
    Replies.OneMoreHit(hits, hit, withCas);
    if hit.Some? { HitShown(hit.value, withCas); }
  }

  lemma {:induction false} AllShown(hits: seq<Option<Replies.Hit>>, withCas: bool)
    ensures Replies.PrintHits(Replies.Hits(hits), withCas) == ShownAll(hits, withCas)
  {
    if hits != [] {
      var init, last := hits[..|hits| - 1], hits[|hits| - 1];
      assert init + [last] == hits;
      AllShown(init, withCas);
      OneMoreShown(init, last, withCas);
    }
  }

  lemma ReplyShown(hits: seq<Option<Replies.Hit>>, withCas: bool)
    ensures Replies.PrintReply(Replies.Hits(hits), withCas) == ShownAll(hits, withCas) + Raw("END\r\n")
  {
    AllShown(hits, withCas);
    MarksRaw();
    Replies.Associative(ShownAll(hits, withCas), Replies.END, Text.LINE_END);
  }

  lemma GetPerformed(env: Env, c: Session, keys: seq<Key>, withCas: bool)
    returns (befores: seq<Session>, hits: seq<Option<Replies.Hit>>)
    requires Ready(c)
    ensures var (c', reply) := Perform(env, c, GetKeys(keys, withCas));
            GetSeen(env, c, c', keys, befores, hits) && reply == ShownAll(hits, withCas) + Raw("END\r\n")
  {
    hits := GetAll(env, c, keys).1;
    befores := GetAllSees(env, c, keys);
    ReplyShown(hits, withCas);
  }

  lemma GatPerformed(env: Env, c: Session, exptime: int, keys: seq<Key>, withCas: bool)
    returns (befores: seq<Session>, hits: seq<Option<Replies.Hit>>)
    requires Ready(c)
    ensures var (c', reply) := Perform(env, c, GetAndTouch(exptime, keys, withCas));
            && GatSeen(env, c, c', keys, TextTtl(exptime, Next(env, c).now), befores, hits)
            && reply == ShownAll(hits, withCas) + Raw("END\r\n")
  {
    var ttl := TextTtl(exptime, Next(env, c).now);
    hits := GetAndTouchAll(env, c, keys, ttl).1;
    ReplyShown(hits, withCas);
    assert Perform(env, c, GetAndTouch(exptime, keys, withCas))
        == (GetAndTouchAll(env, c, keys, ttl).0, Replies.PrintReply(Replies.Hits(hits), withCas));
    befores := GetAndTouchAllSees(env, c, keys, ttl);
  }

  lemma GetJobIs(words: seq<Bytes>)
    requires (Named(words, "GET") || Named(words, "GETS")) && |words| >= 2
    ensures JobOf(words) == GetKeys(words[1..], Named(words, "GETS"))
  {
    JobNamed(words);
    NamesDiffer();
  }

  lemma GatJobIs(words: seq<Bytes>, exptime: int)
    requires (Named(words, "GAT") || Named(words, "GATS")) && |words| >= 3
    requires Words.ParseInt(words[1]) == Some(exptime)
    ensures JobOf(words) == GetAndTouch(exptime, words[2..], Named(words, "GATS"))
  {
    JobNamed(words);
    NamesDiffer();
  }

  /**
    The reply to GET and GETS: one Get goes to the worker of each key in turn, and every key that is
    alive when its Get comes is printed with flags, value and, for GETS, token.
   */
  lemma GetReplied(env: Env, c: Session, words: seq<Bytes>)
    returns (befores: seq<Session>, hits: seq<Option<Replies.Hit>>)
    requires Ready(c) && (Named(words, "GET") || Named(words, "GETS")) && |words| >= 2
    ensures var (c', reply) := Converse(env, c, Text.Line(words));
            && GetSeen(env, c, c', words[1..], befores, hits)
            && reply == ShownAll(hits, Named(words, "GETS")) + Raw("END\r\n")
  {
    GetJobIs(words);
    assert Converse(env, c, Text.Line(words)) == Perform(env, c, GetKeys(words[1..], Named(words, "GETS")));
    befores, hits := GetPerformed(env, c, words[1..], Named(words, "GETS"));
  }

  /** The reply to GAT and GATS: what each key was before its touch. */
  lemma GatReplied(env: Env, c: Session, words: seq<Bytes>, exptime: int)
    returns (befores: seq<Session>, hits: seq<Option<Replies.Hit>>)
    requires Ready(c) && (Named(words, "GAT") || Named(words, "GATS")) && |words| >= 3
    requires Words.ParseInt(words[1]) == Some(exptime)
    ensures var (c', reply) := Converse(env, c, Text.Line(words));
            && GatSeen(env, c, c', words[2..], TextTtl(exptime, Next(env, c).now), befores, hits)
            && reply == ShownAll(hits, Named(words, "GATS")) + Raw("END\r\n")
  {
    GatJobIs(words, exptime);
    var job := GetAndTouch(exptime, words[2..], Named(words, "GATS"));
    assert Converse(env, c, Text.Line(words)) == Perform(env, c, job);
    befores, hits := GatPerformed(env, c, exptime, words[2..], Named(words, "GATS"));
  }

  // ---------- What a client reads ----------

  /** The keys found, in order, without their tokens unless those were asked for. */
  function Known(hits: seq<Option<Replies.Hit>>, withCas: bool): seq<Replies.Hit> {
    if hits == [] then []
    else
      var last := hits[|hits| - 1];
      Known(hits[..|hits| - 1], withCas)
      + if last.None? then [] else [last.value.(cas := if withCas then last.value.cas else 0)]
  }

  lemma {:induction false} ToldConcat(hits: seq<Replies.Hit>, h: Replies.Hit, withCas: bool)
    ensures Replies.AllTold(hits + [h], withCas) == Replies.AllTold(hits, withCas) + [Replies.Told(h, withCas)]
  {
    if hits == [] {
      assert hits + [h] == [h] && [h][1..] == [];
    } else {
      ToldConcat(hits[1..], h, withCas);
      assert (hits + [h])[1..] == hits[1..] + [h];
    }
  }

  lemma {:induction false} ToldIsKnown(hits: seq<Option<Replies.Hit>>, withCas: bool)
    ensures Replies.AllTold(Replies.Hits(hits), withCas) == Known(hits, withCas)
  {
    if hits != [] {
      var init, last := hits[..|hits| - 1], hits[|hits| - 1];
      ToldIsKnown(init, withCas);
      if last.Some? {
        ToldConcat(Replies.Hits(init), last.value, withCas);
      } else {
        assert Replies.Hits(hits) == Replies.Hits(init);
      }
    }
  }

  /** Values whose length fits a number of 64 bits. */
  predicate Measurable(hits: seq<Option<Replies.Hit>>) {
    forall i :: 0 <= i < |hits| && hits[i].Some? ==> |hits[i].value.value| < TWO_TO_THE_64
  }

  lemma {:induction false} HitsPrintable(hits: seq<Option<Replies.Hit>>)
    requires forall i :: 0 <= i < |hits| && hits[i].Some? ==> Replies.Printable(hits[i].value)
    ensures forall h :: h in Replies.Hits(hits) ==> Replies.Printable(h)
  {
    if hits != [] {
      HitsPrintable(hits[..|hits| - 1]);
    }
  }

  /** A client reads from such a reply exactly the keys found with their flags, values and tokens. */
  lemma SightsRead(env: Env, befores: seq<Session>, keys: seq<Key>, withCas: bool, rest: Bytes)
    requires AllReady(befores) && |befores| == |keys| && Words.AllWords(keys)
    requires Measurable(Sights(env, befores, keys))
    ensures var hits := Sights(env, befores, keys);
            Replies.ReadReply(ShownAll(hits, withCas) + Raw("END\r\n") + rest, withCas) ==
            Some((Known(hits, withCas), rest))
  {
    var hits := Sights(env, befores, keys);
    forall i | 0 <= i < |hits| && hits[i].Some?
      ensures Replies.Printable(hits[i].value)
    {
      assert keys[i] in keys;
    }
    HitsPrintable(hits);
    ReplyShown(hits, withCas);
    ToldIsKnown(hits, withCas);
    Replies.ReplyReadBack(Replies.Hits(hits), rest, Replies.PrintReply(Replies.Hits(hits), withCas) + rest, withCas);
  }
}
