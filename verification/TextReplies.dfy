/**
  The reply to GET and GETS: what the server prints, and how a client takes it apart again. Values are
  arbitrary bytes; the byte count in front of each keeps them apart from the reply's own lines.
 */
module TextReplies {
  import opened Basics
  import opened Decimal
  import opened Streams
  import opened TextCommands
  import opened Words

  const VALUE: Bytes := [86, 65, 76, 85, 69]
  const END: Bytes := [69, 78, 68]
  const ERROR: Bytes := [69, 82, 82, 79, 82]

  /** A key that was found. */
  datatype Hit = Hit(key: Key, flags: nat, value: Bytes, cas: uint64)

  function HitWords(h: Hit, withCas: bool): seq<Bytes> {
    [VALUE, h.key, Format(h.flags), Format(|h.value|)] + if withCas then [Format(h.cas)] else []
  }

  function PrintHit(h: Hit, withCas: bool): Bytes {
    Join(HitWords(h, withCas)) + LINE_END + h.value + LINE_END
  }

  function PrintHits(hits: seq<Hit>, withCas: bool): Bytes {
    if hits == [] then [] else PrintHits(hits[..|hits| - 1], withCas) + PrintHit(hits[|hits| - 1], withCas)
  }

  function PrintReply(hits: seq<Hit>, withCas: bool): Bytes {
    PrintHits(hits, withCas) + END + LINE_END
  }

  /** The keys that were found, in the order they were asked for. */
  function Hits(results: seq<Option<Hit>>): seq<Hit> {
    if results == [] then []
    else
      var last := results[|results| - 1];
      Hits(results[..|results| - 1]) + if last.Some? then [last.value] else []
  }

  lemma Associative(a: Bytes, b: Bytes, c: Bytes)
    ensures a + b + c == a + (b + c)
  {
  }

  lemma OneMoreHit(results: seq<Option<Hit>>, hit: Option<Hit>, withCas: bool)
    ensures PrintHits(Hits(results + [hit]), withCas) ==
            PrintHits(Hits(results), withCas) + if hit.Some? then PrintHit(hit.value, withCas) else []
  {
    var before, now := Hits(results), Hits(results + [hit]);
    assert (results + [hit])[..|results|] == results;
    if hit.Some? {
      assert now[..|now| - 1] == before;
    } else {
      assert now == before;
    }
  }

  /** Writes one value, piece by piece. */
  method WriteHit(writer: Writer, key: Key, h: Hit, withCas: bool)
    requires key == h.key
    modifies writer
    ensures writer.output == old(writer.output) + PrintHit(h, withCas)
  {
    WriteHitLine(writer, key, h, withCas);
    writer.WriteBytes(LINE_END);
    writer.WriteBytes(h.value);
    writer.WriteBytes(LINE_END);
  }

  method WriteHitLine(writer: Writer, key: Key, h: Hit, withCas: bool)
    requires key == h.key
    modifies writer
    ensures writer.output == old(writer.output) + Join(HitWords(h, withCas))
  {
    writer.WriteBytes(VALUE + [SPACE]);
    writer.WriteBytes(key);
    writer.WriteBytes([SPACE]);
    writer.WriteBytes(Format(h.flags));
    writer.WriteBytes([SPACE]);
    writer.WriteBytes(Format(|h.value|));
    HitLine(h, withCas);
    if withCas {
      writer.WriteBytes([SPACE]);
      writer.WriteBytes(Format(h.cas));
    }
  }

  lemma HitLine(h: Hit, withCas: bool)
    ensures Join(HitWords(h, withCas)) ==
            VALUE + [SPACE] + h.key + [SPACE] + Format(h.flags) + [SPACE] + Format(|h.value|)
            + if withCas then [SPACE] + Format(h.cas) else []
  {
    var words := HitWords(h, withCas);
    assert Join(words) == words[0] + [SPACE] + Join(words[1..]);
    assert Join(words[1..]) == words[1] + [SPACE] + Join(words[2..]);
    assert Join(words[2..]) == words[2] + [SPACE] + Join(words[3..]);
    if withCas {
      assert Join(words[3..]) == words[3] + [SPACE] + Join(words[4..]);
      assert words[4..] == [Format(h.cas)];
    } else {
      assert words[3..] == [Format(|h.value|)];
    }
  }

  // ---------- Taking a reply apart ----------

  /** What a client makes of a reply; the stream after it comes with it. */
  function ReadReply(s: Bytes, withCas: bool): Option<(seq<Hit>, Bytes)>
    decreases |s|
  {
    var n := LineLength(s);
    if n.None? then None
    else
      var words, rest := Fields(s[..n.value]), s[n.value..];
      if words == [END] then Some(([], rest))
      else
        var h := ReadHit(words, rest, withCas);
        if h.None? then None
        else
          var others := ReadReply(h.value.1, withCas);
          if others.None? then None else Some(([h.value.0] + others.value.0, others.value.1))
  }

  /** One value: its line's words, then its block. */
  function ReadHit(words: seq<Bytes>, rest: Bytes, withCas: bool): (r: Option<(Hit, Bytes)>)
    ensures r.Some? ==> |r.value.1| <= |rest|
  {
    if |words| != (if withCas then 5 else 4) || words[0] != VALUE then None
    else
      var flags, count := ParseUint(words[2], TWO_TO_THE_64), ParseUint(words[3], TWO_TO_THE_64);
      var cas := if withCas then ParseUint(words[4], TWO_TO_THE_64) else Some(0);
      if flags.None? || count.None? || cas.None? then None
      else
        var (data, left) := Block(rest, count.value);
        if data.None? then None else Some((Hit(words[1], flags.value, data.value, cas.value), left))
  }

  /** What a reply says of a hit: without GETS, not its token. */
  function Told(h: Hit, withCas: bool): Hit {
    if withCas then h else h.(cas := 0)
  }

  function AllTold(hits: seq<Hit>, withCas: bool): seq<Hit> {
    if hits == [] then [] else [Told(hits[0], withCas)] + AllTold(hits[1..], withCas)
  }

  predicate Printable(h: Hit) {
    IsWord(h.key) && h.flags < TWO_TO_THE_64 && |h.value| < TWO_TO_THE_64
  }

  lemma HitRead(h: Hit, rest: Bytes, withCas: bool)
    requires Printable(h)
    ensures AllWords(HitWords(h, withCas))
    ensures ReadHit(HitWords(h, withCas), h.value + LINE_END + rest, withCas) == Some((Told(h, withCas), rest))
  {
    NumbersAreWords(h.flags);
    NumbersAreWords(|h.value|);
    NumbersAreWords(h.cas);
    ParseFormat(h.flags, TWO_TO_THE_64);
    ParseFormat(|h.value|, TWO_TO_THE_64);
    ParseFormat(h.cas, TWO_TO_THE_64);
    BlockTaken(h.value, rest);
  }

  lemma FirstHit(h: Hit, rest: Bytes, s: Bytes, withCas: bool)
    requires Printable(h) && s == PrintHit(h, withCas) + rest
    ensures var others := ReadReply(rest, withCas);
            ReadReply(s, withCas) ==
            if others.None? then None else Some(([Told(h, withCas)] + others.value.0, others.value.1))
  {
    var words, block := HitWords(h, withCas), h.value + LINE_END + rest;
    HitRead(h, rest, withCas);
    NoNewlineInWords(words);
    assert s == Join(words) + LINE_END + block;
    FirstLine(Join(words), block, s);
    FieldsOfJoined(words, LINE_END);
    assert words[0] != END;
  }

  lemma LastLine(rest: Bytes, s: Bytes, withCas: bool)
    requires s == END + LINE_END + rest
    ensures ReadReply(s, withCas) == Some(([], rest))
  {
    assert IsWord(END) && Join([END]) == END;
    NoNewlineInWords([END]);
    FirstLine(END, rest, s);
    FieldsOfJoined([END], LINE_END);
  }

  /** The hits printed first come first. */
  lemma {:induction false} PrintFirst(hits: seq<Hit>, withCas: bool)
    requires hits != []
    ensures PrintHits(hits, withCas) == PrintHit(hits[0], withCas) + PrintHits(hits[1..], withCas)
  {
    var init, last := hits[..|hits| - 1], hits[|hits| - 1];
    if init == [] {
      assert PrintHits(init, withCas) == [] && hits[1..] == [];
    } else {
      PrintFirst(init, withCas);
      assert hits[1..][..|hits| - 2] == init[1..];
    }
  }

  lemma ReplyFirst(hits: seq<Hit>, rest: Bytes, withCas: bool)
    requires hits != []
    ensures PrintReply(hits, withCas) + rest == PrintHit(hits[0], withCas) + (PrintReply(hits[1..], withCas) + rest)
  {
    PrintFirst(hits, withCas);
  }

  /** A client reads back exactly the keys, flags, values and tokens that were found. */
  lemma {:induction false} ReplyReadBack(hits: seq<Hit>, rest: Bytes, s: Bytes, withCas: bool)
    requires (forall h :: h in hits ==> Printable(h)) && s == PrintReply(hits, withCas) + rest
    ensures ReadReply(s, withCas) == Some((AllTold(hits, withCas), rest))
  {
    if hits == [] {
      LastLine(rest, s, withCas);
    } else {
      var tail := PrintReply(hits[1..], withCas) + rest;
      ReplyReadBack(hits[1..], rest, tail, withCas);
      ReplyFirst(hits, rest, withCas);
      FirstHit(hits[0], tail, s, withCas);
    }
  }
}
