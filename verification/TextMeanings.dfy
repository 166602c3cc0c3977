/**
  What the text protocol's replies mean: each says, in bytes, what the command found in the cache and
  what it left there. The cache is one timed cache over all keys, as which the workers answer.
 */
module TextMeanings {
  import opened Basics
  import Counters
  import Decimal
  import opened Effects
  import opened ExpirationTimes
  import opened Sessions
  import opened Sharding
  import opened Shard
  import Text = TextCommands
  import opened TextSessions
  import Words

  // ---------- Texts ----------

  /** The bytes of a text. */
  function Raw(text: string): Bytes {
    seq(|text|, i requires 0 <= i < |text| => if text[i] < 256 as char then text[i] as int else 0)
  }

  /** Nothing but printable ASCII. */
  predicate Plainly(text: string) {
    forall i :: 0 <= i < |text| ==> ' ' <= text[i] <= '~'
  }

  lemma SaidRaw(text: string)
    requires Plainly(text)
    ensures Ascii(text) == Raw(text) && Say(text) == Raw(text + "\r\n")
  {
    var said, raw := Say(text), Raw(text + "\r\n");
    forall i | 0 <= i < |said|
      ensures said[i] == raw[i]
    {
    }
  }

  // ---------- Storage ----------

  lemma StorageTexts()
    ensures Say("STORED") == Raw("STORED\r\n") && Say("NOT_STORED") == Raw("NOT_STORED\r\n")
    ensures Say("EXISTS") == Raw("EXISTS\r\n") && Say("NOT_FOUND") == Raw("NOT_FOUND\r\n")
    ensures |Raw("STORED\r\n")| == |Raw("EXISTS\r\n")| == 8
    ensures |Raw("NOT_STORED\r\n")| == 12 && |Raw("NOT_FOUND\r\n")| == 11
    ensures Raw("STORED\r\n")[0] == 83 && Raw("EXISTS\r\n")[0] == 69
  {
    SaidRaw("STORED");
    SaidRaw("NOT_STORED");
    SaidRaw("EXISTS");
    SaidRaw("NOT_FOUND");
  }

  /**
    The reply to SET, ADD, REPLACE and CAS. It is STORED exactly if the command's data are in the cache
    now, alive for as long as the command says and with a new token; otherwise nothing has changed, and
    the reply tells what stood in the way.
   */
  lemma StorageReplied(env: Env, c: Session, op: Op, key: Key, exptime: int, data: Bytes, cas: uint64, noreply: bool)
    requires Ready(c) && (op.Set? || op.Add? || op.Replace? || op.Cas?)
    ensures var (c', reply) := Converse(env, c, Text.Store(op, key, exptime, data, cas, noreply));
            var live, ttl := Found(env, c, key), TextTtl(exptime, Next(env, c).now);
            && (if MayStore(op, live, cas) then NowStored(env, c, c', key, data, ttl) else Unchanged(env, c, c'))
            && (if noreply then reply == []
                else
                  && (reply == Raw("STORED\r\n") <==> NowStored(env, c, c', key, data, ttl))
                  && (reply == Raw("NOT_STORED\r\n") <==> (op.Add? && live.Some?) || (op.Replace? && live.None?))
                  && (reply == Raw("EXISTS\r\n") <==> op.Cas? && live.Some? && live.value.cas != cas)
                  && (reply == Raw("NOT_FOUND\r\n") <==> op.Cas? && live.None?))
  {
    var ttl := TextTtl(exptime, Next(env, c).now);
    var r := Request(op, key, data, ttl, cas, 0);
    StorageTexts();
    StoreAsked(env, c, r);
    if NowStored(env, c, Ask(env, c, r).0, key, data, ttl) {
      WroteIsChange(env, c, Ask(env, c, r).0, key, NewEntry(env, c, key, data, ttl));
    }
  }

  /** What an APPEND or a PREPEND makes of a value. */
  function JoinedValue(op: Op, value: Bytes, data: Bytes): Bytes {
    if op.Append? then value + data else data + value
  }

  /** The reply to APPEND and PREPEND: STORED exactly if the joined value is in the cache now. */
  lemma ExtensionReplied(env: Env, c: Session, op: Op, key: Key, data: Bytes, noreply: bool)
    requires Ready(c) && (op.Append? || op.Prepend?)
    ensures var (c', reply) := Converse(env, c, Text.Extend(op, key, data, noreply));
            var live := Found(env, c, key);
            && (if live.None? then Unchanged(env, c, c')
                else Rewrote(env, c, c', key, live.value, JoinedValue(op, live.value.value, data)))
            && reply == if noreply then [] else Raw(if live.Some? then "STORED\r\n" else "NOT_STORED\r\n")
  {
    StorageTexts();
    ExtendAsked(env, c, Request(op, key, data, 0, 0, 0));
  }

  // ---------- Command words ----------

  /** A command word, in capitals or not. */
  predicate Named(words: seq<Bytes>, name: string) {
    words != [] && Words.ToUpper(words[0]) == Raw(name)
  }

  predicate Hushed(words: seq<Bytes>, i: nat) {
    i < |words| && words[i] == Raw("noreply")
  }

  lemma NoreplyText()
    ensures Text.NOREPLY == Raw("noreply")
  {
  }

  /** Capitals of ASCII text. */
  lemma {:induction false} CapitalsOf(w: Bytes)
    requires forall i :: 0 <= i < |w| ==> w[i] < 0x80
    ensures |Words.ToUpper(w)| == |w|
    ensures forall i :: 0 <= i < |w| ==>
              Words.ToUpper(w)[i] == if 'a' as int <= w[i] <= 'z' as int then w[i] - 'a' as int + 'A' as int else w[i]
  {
    if w != [] {
      CapitalsOf(w[1..]);
    }
  }

  lemma NamesRaw()
    ensures Ascii("GET") == Raw("GET") && Ascii("GETS") == Raw("GETS") && Ascii("DELETE") == Raw("DELETE")
    ensures Ascii("INCR") == Raw("INCR") && Ascii("DECR") == Raw("DECR") && Ascii("TOUCH") == Raw("TOUCH")
    ensures Ascii("GAT") == Raw("GAT") && Ascii("GATS") == Raw("GATS") && Ascii("FLUSH_ALL") == Raw("FLUSH_ALL")
    ensures Ascii("VERBOSITY") == Raw("VERBOSITY") && Ascii("VERSION") == Raw("VERSION")
    ensures Ascii("STATS") == Raw("STATS")
  {
    SaidRaw("GET");
    SaidRaw("GETS");
    SaidRaw("DELETE");
    SaidRaw("INCR");
    SaidRaw("DECR");
    SaidRaw("TOUCH");
    SaidRaw("GAT");
    SaidRaw("GATS");
    SaidRaw("FLUSH_ALL");
    SaidRaw("VERBOSITY");
    SaidRaw("VERSION");
    SaidRaw("STATS");
  }

  lemma NamesDiffer()
    ensures |Raw("GET")| == |Raw("GAT")| == 3 && |Raw("GETS")| == |Raw("GATS")| == |Raw("INCR")| == |Raw("DECR")| == 4
    ensures |Raw("TOUCH")| == |Raw("STATS")| == 5 && |Raw("DELETE")| == 6 && |Raw("VERSION")| == 7
    ensures |Raw("FLUSH_ALL")| == |Raw("VERBOSITY")| == 9
    ensures Raw("GET")[1] == 69 && Raw("GAT")[1] == 65 && Raw("GETS")[1] == 69 && Raw("GATS")[1] == 65
    ensures Raw("INCR")[1] == 78 && Raw("DECR")[0] == 68 && Raw("GETS")[0] == Raw("GATS")[0] == 71
    ensures Raw("INCR")[0] == 73
    ensures Raw("TOUCH")[0] == 84 && Raw("STATS")[0] == 83 && Raw("FLUSH_ALL")[0] == 70 && Raw("VERBOSITY")[0] == 86
  {
  }

  /** What each command word selects. */
  lemma JobNamed(words: seq<Bytes>)
    requires words != []
    ensures Named(words, "GET") ==> JobOf(words) == GetJob(words, false)
    ensures Named(words, "GETS") ==> JobOf(words) == GetJob(words, true)
    ensures Named(words, "DELETE") ==> JobOf(words) == DeleteJob(words)
    ensures Named(words, "INCR") ==> JobOf(words) == CountJob(words, true)
    ensures Named(words, "DECR") ==> JobOf(words) == CountJob(words, false)
    ensures Named(words, "TOUCH") ==> JobOf(words) == TouchJob(words)
    ensures Named(words, "GAT") ==> JobOf(words) == GatJob(words, false)
    ensures Named(words, "GATS") ==> JobOf(words) == GatJob(words, true)
    ensures Named(words, "FLUSH_ALL") ==> JobOf(words) == FlushKeys(Raw("noreply") in words[1..])
    ensures Named(words, "VERBOSITY") ==> JobOf(words) == TextSessions.Plain([])
    ensures Named(words, "VERSION") ==> JobOf(words) == TextSessions.Plain(Say("VERSION 1.0.0"))
    ensures Named(words, "STATS") ==> JobOf(words) == Report
  {
    NamesRaw();
    NamesDiffer();
    NoreplyText();
  }

  // ---------- Commands with data ----------

  lemma DataNames()
    ensures Text.SET == Raw("SET") && Text.ADD == Raw("ADD") && Text.REPLACE == Raw("REPLACE")
    ensures Text.CAS == Raw("CAS") && Text.APPEND == Raw("APPEND") && Text.PREPEND == Raw("PREPEND")
    ensures Text.QUIT == Raw("QUIT")
  {
  }

  lemma DataNamesDiffer()
    ensures |Raw("SET")| == |Raw("ADD")| == |Raw("CAS")| == 3 && |Raw("APPEND")| == 6 && |Raw("QUIT")| == 4
    ensures |Raw("REPLACE")| == |Raw("PREPEND")| == 7
    ensures Raw("SET")[0] == 83 && Raw("ADD")[0] == 65 && Raw("CAS")[0] == 67
    ensures Raw("REPLACE")[0] == 82 && Raw("PREPEND")[0] == 80
  {
  }

  /** What each command word with a data block selects; a QUIT ends the connection. */
  lemma KindNamed(words: seq<Bytes>)
    requires words != []
    ensures Named(words, "SET") ==> Text.KindOf(words[0]) == Text.StoreKind(Set)
    ensures Named(words, "ADD") ==> Text.KindOf(words[0]) == Text.StoreKind(Add)
    ensures Named(words, "REPLACE") ==> Text.KindOf(words[0]) == Text.StoreKind(Replace)
    ensures Named(words, "CAS") ==> Text.KindOf(words[0]) == Text.CasKind
    ensures Named(words, "APPEND") ==> Text.KindOf(words[0]) == Text.ExtendKind(Append)
    ensures Named(words, "PREPEND") ==> Text.KindOf(words[0]) == Text.ExtendKind(Prepend)
    ensures Named(words, "QUIT") ==> Text.KindOf(words[0]) == Text.QuitKind
  {
    DataNames();
    DataNamesDiffer();
  }

  /** The name of a command with data. */
  function Verb(c: Text.Command): string
    requires !c.Other?
  {
    if c.CheckAndSet? then "CAS"
    else match c.op
         case Set => "SET"
         case Add => "ADD"
         case Replace => "REPLACE"
         case Append => "APPEND"
         case _ => "PREPEND"
  }

  /** What a client sends: name, key, flags, expiration time and byte count, a token for CAS, then the data. */
  lemma CommandSpelled(c: Text.Command)
    requires !c.Other? && Text.Sendable(c)
    ensures var token := if c.CheckAndSet? && c.token.Some? then [Decimal.Format(c.token.value)] else [];
            var hush := if c.noreply && !(c.CheckAndSet? && c.token.None?) then [Raw("noreply")] else [];
            var numbers := [Decimal.Format(c.flags), Words.FormatInt(c.exptime), Decimal.Format(|c.data|)];
            Text.Print(c) ==
            Words.Join([Raw(Verb(c)), c.key] + numbers + token + hush) + Raw("\r\n") + (c.data + Raw("\r\n"))
  {
    var token := if c.CheckAndSet? && c.token.Some? then [Decimal.Format(c.token.value)] else [];
    var hush := if c.noreply && !(c.CheckAndSet? && c.token.None?) then [Raw("noreply")] else [];
    var numbers := [Decimal.Format(c.flags), Words.FormatInt(c.exptime), Decimal.Format(|c.data|)];
    DataNames();
    NoreplyText();
    assert Text.LINE_END == Raw("\r\n");
    assert Text.LineOf(c) == [Raw(Verb(c)), c.key] + numbers + token + hush;
  }

  // ---------- Commands with one key ----------

  lemma LineTexts()
    ensures Say("DELETED") == Raw("DELETED\r\n") && Say("NOT_FOUND") == Raw("NOT_FOUND\r\n")
    ensures Say("TOUCHED") == Raw("TOUCHED\r\n") && Say("OK") == Raw("OK\r\n") && Text.LINE_END == Raw("\r\n")
  {
    SaidRaw("DELETED");
    SaidRaw("NOT_FOUND");
    SaidRaw("TOUCHED");
    SaidRaw("OK");
  }

  /** The reply to DELETE: nothing is under the key now, and the reply says whether something was. */
  lemma DeleteReplied(env: Env, c: Session, words: seq<Bytes>)
    requires Ready(c) && Named(words, "DELETE") && |words| >= 2
    ensures var (c', reply) := Converse(env, c, Text.Line(words));
            var key := words[1];
            var done := Found(env, c, key).Some? || (key in Met(env, c).items && c.backend.held(|c.answers|));
            && Erased(env, c, c', key)
            && reply == if Hushed(words, 2) then [] else Raw(if done then "DELETED\r\n" else "NOT_FOUND\r\n")
  {
    JobNamed(words);
    LineTexts();
    NoreplyText();
    DeleteAsked(env, c, KeyRequest(Delete, words[1]));
  }

  /** The reply to TOUCH: TOUCHED exactly if there was an entry, which has the new lifetime now. */
  lemma TouchReplied(env: Env, c: Session, words: seq<Bytes>)
    requires Ready(c) && Named(words, "TOUCH") && |words| >= 3
    ensures var (c', reply) := Converse(env, c, Text.Line(words));
            var key, ttl := words[1], TextTtl(Words.ParseClamped(words[2]), Next(env, c).now);
            var live := Found(env, c, key);
            && (if live.None? then Unchanged(env, c, c') else Prolonged(env, c, c', key, live.value, ttl))
            && reply == if Hushed(words, 3) then [] else Raw(if live.Some? then "TOUCHED\r\n" else "NOT_FOUND\r\n")
  {
    JobNamed(words);
    LineTexts();
    NoreplyText();
    TouchAsked(env, c, TouchRequest(words[1], TextTtl(Words.ParseClamped(words[2]), Next(env, c).now)));
  }

  lemma SaidTogether(a: string, b: string)
    requires Plainly(a) && Plainly(b)
    ensures Say(a + b) == Raw(a) + Raw(b) + Raw("\r\n")
  {
    SaidRaw(a + b);
    assert Raw(a + b + "\r\n") == Raw(a) + Raw(b) + Raw("\r\n");
  }

  lemma NonNumericText()
    ensures Say("CLIENT_ERROR " + ErrorText(NotNumeric))
         == Raw("CLIENT_ERROR ") + Raw("cannot increment or decrement non-numeric value") + Raw("\r\n")
  {
    var (before, after) := ("cannot increment or ", "decrement non-numeric value");
    PlainlyTogether(before, after);
    assert before + after == "cannot increment or decrement non-numeric value";
    SaidTogether("CLIENT_ERROR ", before + after);
  }

  lemma PlainlyTogether(a: string, b: string)
    requires Plainly(a) && Plainly(b)
    ensures Plainly(a + b)
  {
  }

  /** A number is read back from its notation. */
  lemma DenotedAgain(n: uint64, text: Bytes)
    requires text == Decimal.Format(n)
    ensures Counters.Denoted(text) == n
  {
    Decimal.FormatDenotes(n);
    DigitsDenote(text);
  }

  lemma DigitsDenote(text: Bytes)
    requires Decimal.AllDigits(text) && Decimal.Value(text) < TWO_TO_THE_64
    ensures Counters.Denoted(text) == Decimal.Value(text)
  {
    Counters.NothingButDigits(text);
  }

  /** What a count of `delta` came to, and the reply to it. */
  ghost predicate CountTold(env: Env, c: Session, c': Session, reply: Bytes, key: Key, delta: uint64, incr: bool,
                            noreply: bool)
    requires Ready(c)
  {
    var live := Found(env, c, key);
    if live.None? then Unchanged(env, c, c') && reply == if noreply then [] else Raw("NOT_FOUND\r\n")
    else
      var n := Decimal.ParseUint(live.value.value, TWO_TO_THE_64);
      if n.None? then
        && Unchanged(env, c, c')
        && reply == Raw("CLIENT_ERROR ") + Raw("cannot increment or decrement non-numeric value") + Raw("\r\n")
      else
        var text := Decimal.Format(CountTo(n.value, delta, incr));
        && Rewrote(env, c, c', key, live.value, text)
        && reply == if noreply then [] else text + Raw("\r\n")
  }

  lemma CountAnswered(env: Env, c: Session, key: Key, delta: uint64, incr: bool, noreply: bool)
    requires Ready(c)
    ensures var (c', reply) := Perform(env, c, CountKey(key, delta, incr, noreply));
            CountTold(env, c, c', reply, key, delta, incr, noreply)
  {
    LineTexts();
    NonNumericText();
    CountAsked(env, c, CountRequest(key, delta, incr));
    var answer := Ask(env, c, CountRequest(key, delta, incr)).1;
    if answer.err == NoError {
      var n := Decimal.ParseUint(Found(env, c, key).value.value, TWO_TO_THE_64).value;
      DenotedAgain(CountTo(n, delta, incr), answer.value);
    }
  }

  /**
    The reply to INCR and DECR: the number that is in the cache now, which is the number found, changed
    by what the command says; or what stood in the way, and then nothing has changed.
   */
  lemma CountReplied(env: Env, c: Session, words: seq<Bytes>, delta: uint64)
    requires Ready(c) && (Named(words, "INCR") || Named(words, "DECR")) && |words| >= 3
    requires Decimal.ParseUint(words[2], TWO_TO_THE_64) == Some(delta)
    ensures var (c', reply) := Converse(env, c, Text.Line(words));
            CountTold(env, c, c', reply, words[1], delta, Named(words, "INCR"), Hushed(words, 3))
  {
    var incr := Named(words, "INCR");
    CountJobIs(words, delta);
    assert Converse(env, c, Text.Line(words)) == Perform(env, c, CountKey(words[1], delta, incr, Hushed(words, 3)));
    CountAnswered(env, c, words[1], delta, incr, Hushed(words, 3));
  }

  lemma CountJobIs(words: seq<Bytes>, delta: uint64)
    requires (Named(words, "INCR") || Named(words, "DECR")) && |words| >= 3
    requires Decimal.ParseUint(words[2], TWO_TO_THE_64) == Some(delta)
    ensures JobOf(words) == CountKey(words[1], delta, Named(words, "INCR"), Hushed(words, 3))
  {
    JobNamed(words);
    NamesDiffer();
    NoreplyText();
  }

  // ---------- Commands without a key ----------

  /** The reply to FLUSH_ALL; Effects.FlushEmpties says what has become of the cache. */
  lemma FlushReplied(env: Env, c: Session, words: seq<Bytes>)
    requires Width(c.backend) > 0 && Named(words, "FLUSH_ALL")
    ensures var (c', reply) := Converse(env, c, Text.Line(words));
            && Went(env, c, Flushes(Width(c.backend)), c')
            && reply == if Raw("noreply") in words[1..] then [] else Raw("OK\r\n")
    ensures forall i :: 0 <= i < Width(c.backend) ==> EmptyAt(AfterFlushOf(env, c, i), i)
  {
    JobNamed(words);
    LineTexts();
    FlushEmpties(env, c);
  }

  lemma ReportTexts()
    ensures Ascii("STAT pid ") == Raw("STAT pid ") && Ascii("STAT uptime ") == Raw("STAT uptime ")
    ensures Ascii("STAT time ") == Raw("STAT time ") && Ascii("STAT curr_items ") == Raw("STAT curr_items ")
    ensures Say("STAT version 1.0.0") == Raw("STAT version 1.0.0\r\n") && Say("END") == Raw("END\r\n")
    ensures Text.LINE_END == Raw("\r\n")
  {
    SaidRaw("STAT pid ");
    SaidRaw("STAT uptime ");
    SaidRaw("STAT time ");
    SaidRaw("STAT curr_items ");
    SaidRaw("STAT version 1.0.0");
    SaidRaw("END");
  }

  /** The lines of STATS, with the number of entries. */
  function StatLines(env: Env, m: Moment, count: nat): Bytes {
    Raw("STAT pid ") + Decimal.Format(env.pid) + Raw("\r\n")
    + Raw("STAT uptime ") + Words.FormatInt((m.now - env.started) / 1_000_000_000) + Raw("\r\n")
    + Raw("STAT time ") + Decimal.Format(m.clk.check / 1_000_000_000) + Raw("\r\n")
    + Raw("STAT version 1.0.0\r\n")
    + Raw("STAT curr_items ") + Decimal.Format(count) + Raw("\r\n")
    + Raw("END\r\n")
  }

  lemma ReportIs(env: Env, c: Session)
    requires c.backend.Workers?
    ensures ReportOf(env, c) == StatLines(env, Next(env, c), ItemCount(c.backend.shards))
  {
    ReportTexts();
  }

  lemma KeysCounted(shards: seq<State>)
    requires shards != [] && Confined(shards)
    ensures ItemCount(shards) == |Union(shards)|
  {
    UnionOfConfined(shards, []);
    UnionCount(shards);
  }

  /** The reply to STATS counts the entries of all workers, every key once; STATS changes nothing. */
  lemma StatsReplied(env: Env, c: Session, words: seq<Bytes>)
    requires c.backend.Workers? && Width(c.backend) > 0 && Confined(c.backend.shards) && Named(words, "STATS")
    ensures Converse(env, c, Text.Line(words)) == (c, StatLines(env, Next(env, c), |Union(c.backend.shards)|))
  {
    JobNamed(words);
    assert Converse(env, c, Text.Line(words)) == (c, ReportOf(env, c));
    ReportIs(env, c);
    KeysCounted(c.backend.shards);
  }

  lemma FormatText()
    ensures Say(BAD_FORMAT) == Raw("CLIENT_ERROR bad command line format\r\n") && Say("ERROR") == Raw("ERROR\r\n")
  {
    SaidRaw(BAD_FORMAT);
    SaidRaw("ERROR");
  }

  lemma DeltaText()
    ensures Say("CLIENT_ERROR invalid numeric delta argument")
         == Raw("CLIENT_ERROR invalid numeric delta argument") + Raw("\r\n")
  {
    var text := "CLIENT_ERROR invalid numeric delta argument";
    SaidTogether(text, "");
    assert text + "" == text && Raw(text) + Raw("") == Raw(text);
  }

  /** A word that names a command without a data block. */
  predicate IsLineCommand(words: seq<Bytes>) {
    || Named(words, "GET") || Named(words, "GETS") || Named(words, "DELETE") || Named(words, "INCR")
    || Named(words, "DECR") || Named(words, "TOUCH") || Named(words, "GAT") || Named(words, "GATS")
    || Named(words, "FLUSH_ALL") || Named(words, "VERBOSITY") || Named(words, "VERSION") || Named(words, "STATS")
  }

  lemma OtherJobs(words: seq<Bytes>)
    requires words != []
    ensures !IsLineCommand(words) ==> JobOf(words) == TextSessions.Plain(Raw("ERROR\r\n"))
    ensures Named(words, "VERSION") ==> JobOf(words) == TextSessions.Plain(Raw("VERSION 1.0.0\r\n"))
    ensures Named(words, "VERBOSITY") ==> JobOf(words) == TextSessions.Plain([])
    ensures (Named(words, "GAT") || Named(words, "GATS")) && |words| >= 3 && Words.ParseInt(words[1]).None? ==>
              JobOf(words) == TextSessions.Plain(Raw("CLIENT_ERROR bad command line format\r\n"))
    ensures (Named(words, "INCR") || Named(words, "DECR")) && |words| >= 3
            && Decimal.ParseUint(words[2], TWO_TO_THE_64).None? ==>
              JobOf(words) == TextSessions.Plain(Raw("CLIENT_ERROR invalid numeric delta argument") + Raw("\r\n"))
  {
    JobNamed(words);
    NamesRaw();
    FormatText();
    DeltaText();
    SaidRaw("VERSION 1.0.0");
  }

  /** What asks nothing of the cache changes nothing there: version, verbosity, and lines that make no sense. */
  lemma OtherLinesReplied(env: Env, c: Session, words: seq<Bytes>)
    requires Width(c.backend) > 0 && words != []
    ensures !IsLineCommand(words) ==> Converse(env, c, Text.Line(words)) == (c, Raw("ERROR\r\n"))
    ensures Named(words, "VERSION") ==> Converse(env, c, Text.Line(words)) == (c, Raw("VERSION 1.0.0\r\n"))
    ensures Named(words, "VERBOSITY") ==> Converse(env, c, Text.Line(words)) == (c, [])
    ensures (Named(words, "GAT") || Named(words, "GATS")) && |words| >= 3 && Words.ParseInt(words[1]).None? ==>
              Converse(env, c, Text.Line(words)) == (c, Raw("CLIENT_ERROR bad command line format\r\n"))
    ensures (Named(words, "INCR") || Named(words, "DECR")) && |words| >= 3
            && Decimal.ParseUint(words[2], TWO_TO_THE_64).None? ==>
              Converse(env, c, Text.Line(words)) ==
              (c, Raw("CLIENT_ERROR invalid numeric delta argument") + Raw("\r\n"))
  {
    var job := JobOf(words);
    OtherJobs(words);
    assert Converse(env, c, Text.Line(words)) == Perform(env, c, job);
  }

  lemma ShortJobs(words: seq<Bytes>)
    requires words != []
    ensures (Named(words, "GET") || Named(words, "GETS")) && |words| < 2 ==>
              JobOf(words) == TextSessions.Plain(Raw("ERROR\r\n"))
    ensures (Named(words, "GAT") || Named(words, "GATS")) && |words| < 3 ==>
              JobOf(words) == TextSessions.Plain(Raw("ERROR\r\n"))
    ensures || (Named(words, "DELETE") && |words| < 2)
            || ((Named(words, "INCR") || Named(words, "DECR") || Named(words, "TOUCH")) && |words| < 3) ==>
              JobOf(words) == TextSessions.Plain(Raw("CLIENT_ERROR bad command line format\r\n"))
  {
    JobNamed(words);
    FormatText();
  }

  /** Lines with too few words are refused, and change nothing. */
  lemma ShortLineRefused(env: Env, c: Session, words: seq<Bytes>)
    requires Width(c.backend) > 0 && words != []
    ensures (Named(words, "GET") || Named(words, "GETS")) && |words| < 2 ==>
              Converse(env, c, Text.Line(words)) == (c, Raw("ERROR\r\n"))
    ensures (Named(words, "GAT") || Named(words, "GATS")) && |words| < 3 ==>
              Converse(env, c, Text.Line(words)) == (c, Raw("ERROR\r\n"))
    ensures || (Named(words, "DELETE") && |words| < 2)
            || ((Named(words, "INCR") || Named(words, "DECR") || Named(words, "TOUCH")) && |words| < 3) ==>
              Converse(env, c, Text.Line(words)) == (c, Raw("CLIENT_ERROR bad command line format\r\n"))
  {
    var job := JobOf(words);
    ShortJobs(words);
    assert Converse(env, c, Text.Line(words)) == Perform(env, c, job);
  }

  lemma RefusalTexts()
    ensures Say("SERVER_ERROR object too large for cache") == Raw("SERVER_ERROR object too large for cache\r\n")
    ensures Say("SERVER_ERROR read error") == Raw("SERVER_ERROR read error\r\n")
  {
    SaidRaw("SERVER_ERROR object too large for cache");
    SaidRaw("SERVER_ERROR read error");
  }

  /** A SET, ADD or REPLACE is too large from one byte over a megabyte on; nothing else is. */
  lemma TooLargeWhen(c: Text.Command)
    requires Text.WellFormed(c)
    ensures Text.Intended(c).TooLarge? <==> c.Storage? && |c.data| > 1_048_576
  {
  }

  /** What cannot be served is refused, and changes nothing. */
  lemma CallRefused(env: Env, c: Session)
    requires Width(c.backend) > 0
    ensures Converse(env, c, Text.TooLarge) == (c, Raw("SERVER_ERROR object too large for cache\r\n"))
    ensures Converse(env, c, Text.BadFormat) == (c, Raw("CLIENT_ERROR bad command line format\r\n"))
    ensures Converse(env, c, Text.ReadError) == (c, Raw("SERVER_ERROR read error\r\n"))
  {
    FormatText();
    RefusalTexts();
  }
}
