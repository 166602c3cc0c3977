/**
  The text protocol's command stream: what the command loop makes of its input, and what clients
  send.

  Whatever becomes of a storage command, it takes exactly its line, its data block and the line end
  after that from the stream, so a pipeline of commands is recovered as it was printed.
 */
module TextCommands {
  import opened Basics
  import opened Decimal
  import opened Words
  import Shard

  const MAX_VALUE_SIZE: nat := 1024 * 1024

  /** The longest byte slice that Go's `make` accepts where addresses have 48 bits; it panics beyond. */
  const MAX_ALLOCATION: nat := 0x1_0000_0000_0000

  // The command words in upper case, and the option that asks for no reply.
  const SET: Bytes := [83, 69, 84]
  const ADD: Bytes := [65, 68, 68]
  const REPLACE: Bytes := [82, 69, 80, 76, 65, 67, 69]
  const CAS: Bytes := [67, 65, 83]
  const APPEND: Bytes := [65, 80, 80, 69, 78, 68]
  const PREPEND: Bytes := [80, 82, 69, 80, 69, 78, 68]
  const QUIT: Bytes := [81, 85, 73, 84]
  const NOREPLY: Bytes := [110, 111, 114, 101, 112, 108, 121]

  // ---------- What the server makes of a command ----------

  datatype Call =
    | Store(op: Shard.Op, key: Key, exptime: int, data: Bytes, cas: uint64, noreply: bool)
    | Extend(op: Shard.Op, key: Key, data: Bytes, noreply: bool)
    | TooLarge
    | BadFormat
    | ReadError
    | Line(words: seq<Bytes>)
    | BadCount

  /** Which handler a command word selects. */
  datatype Kind = StoreKind(op: Shard.Op) | CasKind | ExtendKind(op: Shard.Op) | QuitKind | LineKind

  function KindOf(word: Bytes): Kind {
    KindOfCapitals(ToUpper(word))
  }

  function KindOfCapitals(cmd: Bytes): Kind {
    if cmd == SET then StoreKind(Shard.Set)
    else if cmd == ADD then StoreKind(Shard.Add)
    else if cmd == REPLACE then StoreKind(Shard.Replace)
    else if cmd == APPEND then ExtendKind(Shard.Append)
    else if cmd == PREPEND then ExtendKind(Shard.Prepend)
    else if cmd == CAS then CasKind
    else if cmd == QUIT then QuitKind
    else LineKind
  }

  /** What is left after `n` more bytes, or at the end of the stream. */
  function Skip(s: Bytes, n: nat): Bytes {
    if n <= |s| then s[n..] else []
  }

  /** What is left after the line end that follows a data block: one byte, and another after a return. */
  function AfterLineEnd(s: Bytes): Bytes {
    if s != [] && s[0] == RETURN then Skip(s, 2) else Skip(s, 1)
  }

  /** Reads a data block of `n` bytes and its line end; none if the stream is too short. */
  function Block(rest: Bytes, n: nat): (Option<Bytes>, Bytes) {
    if n <= |rest| then (Some(rest[..n]), AfterLineEnd(rest[n..])) else (None, [])
  }

  /** Whether a byte count can be allocated. */
  predicate CanMake(n: int) {
    0 <= n <= MAX_ALLOCATION
  }

  predicate HasWord(words: seq<Bytes>, i: nat, word: Bytes) {
    i < |words| && words[i] == word
  }

  predicate NumbersOk(words: seq<Bytes>) {
    && |words| >= 5 && ParseUint(words[2], TWO_TO_THE_32).Some?
    && ParseInt(words[3]).Some? && ParseInt(words[4]).Some?
  }

  /** A SET, ADD or REPLACE with these words, and what it leaves of the stream. */
  function ServeStorage(op: Shard.Op, words: seq<Bytes>, rest: Bytes): (Call, Bytes) {
    if !NumbersOk(words) then (BadFormat, rest)
    else
      var n := ParseInt(words[4]).value;
      if !CanMake(n) then (BadCount, rest)
      else if n > MAX_VALUE_SIZE then (TooLarge, Skip(rest, n + 2))
      else
        var (data, left) := Block(rest, n);
        if data.None? then (ReadError, left)
        else (Store(op, words[1], ParseInt(words[3]).value, data.value, 0, HasWord(words, 5, NOREPLY)), left)
  }

  /** A CAS is served only with a token, but takes its data block in any case. */
  function ServeCas(words: seq<Bytes>, rest: Bytes): (Call, Bytes) {
    if !NumbersOk(words) then (BadFormat, rest)
    else
      var n := ParseInt(words[4]).value;
      if !CanMake(n) then (BadCount, rest)
      else
        var (data, left) := Block(rest, n);
        if data.None? then (ReadError, left)
        else if |words| < 6 || ParseUint(words[5], TWO_TO_THE_64).None? then (BadFormat, left)
        else
          var cas := ParseUint(words[5], TWO_TO_THE_64).value;
          (Store(Shard.Cas, words[1], ParseInt(words[3]).value, data.value, cas, HasWord(words, 6, NOREPLY)), left)
  }

  /** An APPEND or PREPEND looks at the byte count only. */
  function ServeExtend(op: Shard.Op, words: seq<Bytes>, rest: Bytes): (Call, Bytes) {
    if |words| < 5 || ParseInt(words[4]).None? then (BadFormat, rest)
    else
      var n := ParseInt(words[4]).value;
      if !CanMake(n) then (BadCount, rest)
      else
        var (data, left) := Block(rest, n);
        if data.None? then (ReadError, left)
        else (Extend(op, words[1], data.value, HasWord(words, 5, NOREPLY)), left)
  }

  function Serve(words: seq<Bytes>, rest: Bytes): (Call, Bytes)
    requires words != []
  {
    match KindOf(words[0])
    case StoreKind(op) => ServeStorage(op, words, rest)
    case CasKind => ServeCas(words, rest)
    case ExtendKind(op) => ServeExtend(op, words, rest)
    case _ => (Line(words), rest)
  }

  lemma ServeTakes(words: seq<Bytes>, rest: Bytes)
    requires words != []
    ensures |Serve(words, rest).1| <= |rest|
  {
  }

  /** What the command loop makes of a stream. A byte count that cannot be allocated ends it; so do QUIT and the end. */
  function Commands(s: Bytes): seq<Call>
    decreases |s|
  {
    var n := LineLength(s);
    if n.None? then []
    else
      var words, rest := Fields(s[..n.value]), s[n.value..];
      if words == [] then Commands(rest)
      else if KindOf(words[0]).QuitKind? then []
      else
        var (call, left) := Serve(words, rest);
        ServeTakes(words, rest);
        if call.BadCount? then [call] else [call] + Commands(left)
  }

  // ---------- What clients send ----------

  datatype Command =
    | Storage(op: Shard.Op, key: Key, flags: nat, exptime: int, data: Bytes, noreply: bool)
    | CheckAndSet(key: Key, flags: nat, exptime: int, data: Bytes, token: Option<uint64>, noreply: bool)
    | Extension(op: Shard.Op, key: Key, flags: nat, exptime: int, data: Bytes, noreply: bool)
    | Other(words: seq<Bytes>)

  function CommandWord(op: Shard.Op): Bytes {
    match op
    case Set => SET
    case Add => ADD
    case Replace => REPLACE
    case Append => APPEND
    case _ => PREPEND
  }

  function DataLine(word: Bytes, key: Key, flags: nat, exptime: int, count: nat): seq<Bytes> {
    [word, key, Format(flags), FormatInt(exptime), Format(count)]
  }

  function NoreplyWords(noreply: bool): seq<Bytes> {
    if noreply then [NOREPLY] else []
  }

  /** The words of a command's line. Without a token a CAS has nowhere to ask for no reply. */
  function LineOf(c: Command): seq<Bytes> {
    match c
    case Storage(op, key, flags, exptime, data, noreply) =>
      DataLine(CommandWord(op), key, flags, exptime, |data|) + NoreplyWords(noreply)
    case CheckAndSet(key, flags, exptime, data, token, noreply) =>
      DataLine(CAS, key, flags, exptime, |data|) +
      if token.None? then [] else [Format(token.value)] + NoreplyWords(noreply)
    case Extension(op, key, flags, exptime, data, noreply) =>
      DataLine(CommandWord(op), key, flags, exptime, |data|) + NoreplyWords(noreply)
    case Other(words) => words
  }

  /** What the protocol asks of a command but for its words: numbers in range, and a known command. */
  predicate Sendable(c: Command) {
    match c
    case Storage(op, _, flags, exptime, data, _) =>
      (op.Set? || op.Add? || op.Replace?) && FieldsFit(flags, exptime, data)
    case CheckAndSet(_, flags, exptime, data, _, _) => FieldsFit(flags, exptime, data)
    case Extension(op, _, flags, exptime, data, _) =>
      (op.Append? || op.Prepend?) && FieldsFit(flags, exptime, data)
    case Other(words) => words != [] && KindOf(words[0]).LineKind?
  }

  predicate FieldsFit(flags: nat, exptime: int, data: Bytes) {
    flags < TWO_TO_THE_32 && -TWO_TO_THE_63 <= exptime < TWO_TO_THE_63 && |data| <= MAX_ALLOCATION
  }

  /** No key, and no word of a line without data, is empty or holds a space character. */
  ghost predicate MadeOfWords(c: Command) {
    if c.Other? then AllWords(c.words) else IsWord(c.key)
  }

  ghost predicate WellFormed(c: Command) {
    Sendable(c) && MadeOfWords(c)
  }

  const LINE_END: Bytes := [RETURN, NEWLINE]

  /** A command line, and after it the data block if there is one; the data are arbitrary bytes. */
  function Print(c: Command): Bytes {
    Join(LineOf(c)) + LINE_END + if c.Other? then [] else c.data + LINE_END
  }

  function PrintAll(cs: seq<Command>): Bytes {
    if cs == [] then [] else Print(cs[0]) + PrintAll(cs[1..])
  }

  /** What a well-formed command is to be served as. */
  function Intended(c: Command): Call {
    match c
    case Storage(op, key, _, exptime, data, noreply) =>
      if |data| > MAX_VALUE_SIZE then TooLarge else Store(op, key, exptime, data, 0, noreply)
    case CheckAndSet(key, _, exptime, data, token, noreply) =>
      if token.None? then BadFormat else Store(Shard.Cas, key, exptime, data, token.value, noreply)
    case Extension(op, key, _, _, data, noreply) => Extend(op, key, data, noreply)
    case Other(words) => Line(words)
  }

  // ---------- Recovering what was sent ----------

  lemma CommandWords(op: Shard.Op)
    ensures KindOf(CAS) == CasKind
    ensures op.Set? || op.Add? || op.Replace? ==> KindOf(CommandWord(op)) == StoreKind(op)
    ensures op.Append? || op.Prepend? ==> KindOf(CommandWord(op)) == ExtendKind(op)
  {
    UpperStays(CAS);
    UpperStays(CommandWord(op));
    assert ADD[0] != SET[0] && REPLACE[0] != SET[0] && REPLACE[0] != ADD[0] && PREPEND[0] != SET[0];
    assert APPEND[1] != ADD[1] && CAS[0] != SET[0] && PREPEND[0] != APPEND[0];
  }

  lemma AreWords()
    ensures IsWord(SET) && IsWord(ADD) && IsWord(REPLACE) && IsWord(CAS) && IsWord(APPEND) && IsWord(PREPEND)
    ensures IsWord(NOREPLY)
  {
    AsciiWord(SET);
    AsciiWord(ADD);
    AsciiWord(REPLACE);
    AsciiWord(CAS);
    AsciiWord(APPEND);
    AsciiWord(PREPEND);
    AsciiWord(NOREPLY);
  }

  /** The line of a well-formed data command is made of words, and its numbers are read back. */
  lemma DataLineOk(word: Bytes, key: Key, flags: nat, exptime: int, data: Bytes)
    requires IsWord(word) && IsWord(key) && FieldsFit(flags, exptime, data)
    ensures var line := DataLine(word, key, flags, exptime, |data|);
            && AllWords(line) && NumbersOk(line)
            && ParseInt(line[3]) == Some(exptime) && ParseInt(line[4]) == Some(|data|)
  {
    NumbersAreWords(flags);
    NumbersAreWords(exptime);
    NumbersAreWords(|data|);
    ParseFormat(flags, TWO_TO_THE_32);
    ParseFormatInt(exptime);
    ParseFormatInt(|data|);
  }

  /** A data block is taken whole, with the line end after it, whatever its bytes are. */
  lemma BlockTaken(data: Bytes, rest: Bytes)
    ensures Block(data + LINE_END + rest, |data|) == (Some(data), rest)
    ensures Skip(data + LINE_END + rest, |data| + 2) == rest
  {
    var s := data + LINE_END + rest;
    assert s[..|data|] == data && s[|data|..] == LINE_END + rest;
    assert s[|data| + 2..] == rest && (LINE_END + rest)[2..] == rest;
  }

  /** A block may end in a bare newline; and a stream that ends too early has no block, and is used up. */
  lemma BlockEnds(data: Bytes, rest: Bytes, n: nat)
    ensures Block(data + [NEWLINE] + rest, |data|) == (Some(data), rest)
    ensures n > |data| ==> Block(data, n) == (None, [])
  {
    var s := data + [NEWLINE] + rest;
    assert s[..|data|] == data && s[|data|..] == [NEWLINE] + rest && ([NEWLINE] + rest)[1..] == rest;
  }

  /** What is left of the stream after a command's line: its data block, and whatever comes next. */
  function Payload(c: Command, rest: Bytes): Bytes {
    if c.Other? then rest else c.data + LINE_END + rest
  }

  /** More words at the end of a line leave its numbers as they are. */
  lemma MoreWords(line: seq<Bytes>, more: seq<Bytes>)
    requires AllWords(line) && AllWords(more) && NumbersOk(line)
    ensures AllWords(line + more) && NumbersOk(line + more)
    ensures (line + more)[3] == line[3] && (line + more)[4] == line[4]
  {
  }

  lemma StorageServed(c: Command, rest: Bytes)
    requires WellFormed(c) && c.Storage?
    ensures AllWords(LineOf(c)) && KindOf(LineOf(c)[0]) == StoreKind(c.op)
    ensures ServeStorage(c.op, LineOf(c), Payload(c, rest)) == (Intended(c), rest)
  {
    var line, more := DataLine(CommandWord(c.op), c.key, c.flags, c.exptime, |c.data|), NoreplyWords(c.noreply);
    AreWords();
    CommandWords(c.op);
    DataLineOk(CommandWord(c.op), c.key, c.flags, c.exptime, c.data);
    MoreWords(line, more);
    BlockTaken(c.data, rest);
    assert LineOf(c) == line + more;
  }

  lemma CheckAndSetServed(c: Command, rest: Bytes)
    requires WellFormed(c) && c.CheckAndSet?
    ensures AllWords(LineOf(c)) && KindOf(LineOf(c)[0]).CasKind?
    ensures ServeCas(LineOf(c), Payload(c, rest)) == (Intended(c), rest)
  {
    var line := DataLine(CAS, c.key, c.flags, c.exptime, |c.data|);
    AreWords();
    CommandWords(Shard.Cas);
    DataLineOk(CAS, c.key, c.flags, c.exptime, c.data);
    BlockTaken(c.data, rest);
    if c.token.Some? {
      var more := [Format(c.token.value)] + NoreplyWords(c.noreply);
      NumbersAreWords(c.token.value);
      ParseFormat(c.token.value, TWO_TO_THE_64);
      MoreWords(line, more);
      assert LineOf(c) == line + more;
    } else {
      assert LineOf(c) == line;
    }
  }

  lemma ExtensionTaken(op: Shard.Op, words: seq<Bytes>, data: Bytes, rest: Bytes)
    requires |words| >= 5 && ParseInt(words[4]) == Some(|data|) && |data| <= MAX_ALLOCATION
    ensures ServeExtend(op, words, data + LINE_END + rest) ==
            (Extend(op, words[1], data, HasWord(words, 5, NOREPLY)), rest)
  {
    BlockTaken(data, rest);
  }

  lemma ExtensionServed(c: Command, rest: Bytes)
    requires WellFormed(c) && c.Extension?
    ensures AllWords(LineOf(c)) && KindOf(LineOf(c)[0]) == ExtendKind(c.op)
    ensures ServeExtend(c.op, LineOf(c), Payload(c, rest)) == (Intended(c), rest)
  {
    var line, more := DataLine(CommandWord(c.op), c.key, c.flags, c.exptime, |c.data|), NoreplyWords(c.noreply);
    AreWords();
    CommandWords(c.op);
    DataLineOk(CommandWord(c.op), c.key, c.flags, c.exptime, c.data);
    MoreWords(line, more);
    assert LineOf(c) == line + more;
    ExtensionTaken(c.op, LineOf(c), c.data, rest);
  }

  /** A well-formed command is served as intended and takes exactly its data block and line end. */
  lemma ServedAsIntended(c: Command, rest: Bytes)
    requires WellFormed(c)
    ensures AllWords(LineOf(c)) && LineOf(c) != [] && !KindOf(LineOf(c)[0]).QuitKind?
    ensures Serve(LineOf(c), Payload(c, rest)) == (Intended(c), rest)
  {
    match c
    case Storage(_, _, _, _, _, _) => StorageServed(c, rest);
    case CheckAndSet(_, _, _, _, _, _) => CheckAndSetServed(c, rest);
    case Extension(_, _, _, _, _, _) => ExtensionServed(c, rest);
    case Other(_) =>
  }

  /** The line of a printed command is the first line of the stream, and its words are read back. */
  lemma LineRecovered(c: Command, rest: Bytes, s: Bytes)
    requires WellFormed(c) && AllWords(LineOf(c)) && s == Print(c) + rest
    ensures LineLength(s).Some?
    ensures Fields(s[..LineLength(s).value]) == LineOf(c) && s[LineLength(s).value..] == Payload(c, rest)
  {
    NoNewlineInWords(LineOf(c));
    FirstLine(Join(LineOf(c)), Payload(c, rest), s);
    FieldsOfJoined(LineOf(c), LINE_END);
  }

  /** The words of a printed line are read back if and only if the command is made of words. */
  lemma WordsRecoveredWhen(c: Command)
    requires Sendable(c)
    ensures Fields(Join(LineOf(c)) + LINE_END) == LineOf(c) <==> MadeOfWords(c)
  {
    FieldsAreWords(Join(LineOf(c)) + LINE_END);
    if MadeOfWords(c) {
      ServedAsIntended(c, []);
      FieldsOfJoined(LineOf(c), LINE_END);
    } else if !c.Other? {
      assert LineOf(c)[1] == c.key;
    }
  }

  lemma FirstLine(line: Bytes, rest: Bytes, s: Bytes)
    requires NEWLINE !in line && s == line + LINE_END + rest
    ensures LineLength(s).Some?
    ensures s[..LineLength(s).value] == line + LINE_END && s[LineLength(s).value..] == rest
  {
    assert s == (line + [RETURN]) + [NEWLINE] + rest;
    LineEnds(line + [RETURN], rest);
  }

  /** What the command loop makes of a stream that begins with a line of these words. */
  lemma NextCommand(line: Bytes, rest: Bytes, s: Bytes, words: seq<Bytes>)
    requires NEWLINE !in line && s == line + LINE_END + rest && words == Fields(line + LINE_END) && words != []
    ensures KindOf(words[0]).QuitKind? ==> Commands(s) == []
    ensures !KindOf(words[0]).QuitKind? ==>
              var (call, left) := Serve(words, rest);
              Commands(s) == if call.BadCount? then [call] else [call] + Commands(left)
  {
    FirstLine(line, rest, s);
    ServeTakes(words, rest);
  }

  lemma PrintedLine(c: Command, rest: Bytes)
    ensures Print(c) + rest == Join(LineOf(c)) + LINE_END + Payload(c, rest)
  {
  }

  lemma FirstCommand(c: Command, rest: Bytes, s: Bytes)
    requires WellFormed(c) && s == Print(c) + rest
    ensures Commands(s) == [Intended(c)] + Commands(rest)
  {
    ServedAsIntended(c, rest);
    LineRecovered(c, rest, s);
  }

  /** What each of a list of commands is to be served as. */
  function AllIntended(cs: seq<Command>): seq<Call> {
    if cs == [] then [] else [Intended(cs[0])] + AllIntended(cs[1..])
  }

  /**
    A pipelined stream stays in sync: any list of well-formed commands, with arbitrary data bytes, is
    served as intended, command by command. That includes values that are too large and
    compare-and-swaps without a token, which are refused but take their data blocks.
   */
  lemma {:induction false} StreamStaysInSync(cs: seq<Command>, s: Bytes)
    requires (forall c :: c in cs ==> WellFormed(c)) && s == PrintAll(cs)
    ensures Commands(s) == AllIntended(cs) && BadCount !in Commands(s)
  {
    if cs != [] {
      StreamStaysInSync(cs[1..], PrintAll(cs[1..]));
      FirstCommand(cs[0], PrintAll(cs[1..]), s);
    }
  }

  // ---------- When it does not ----------

  /** Every key and every line that the command loop sees is made of words. */
  ghost predicate Spaced(call: Call) {
    match call
    case Store(_, key, _, _, _, _) => IsWord(key)
    case Extend(_, key, _, _) => IsWord(key)
    case Line(words) => AllWords(words)
    case _ => true
  }

  lemma ServedSpaced(words: seq<Bytes>, rest: Bytes)
    requires words != [] && AllWords(words)
    ensures Spaced(Serve(words, rest).0)
  {
  }

  lemma {:induction false} CommandsSpaced(s: Bytes)
    ensures forall call :: call in Commands(s) ==> Spaced(call)
    decreases |s|
  {
    var n := LineLength(s);
    if n.Some? {
      var words, rest := Fields(s[..n.value]), s[n.value..];
      FieldsAreWords(s[..n.value]);
      if words == [] {
        CommandsSpaced(rest);
      } else if !KindOf(words[0]).QuitKind? {
        ServedSpaced(words, rest);
        ServeTakes(words, rest);
        CommandsSpaced(Serve(words, rest).1);
      }
    }
  }

  /** The call of a command carries its key or its words; a refused command's does not. */
  predicate Carries(c: Command) {
    Intended(c).Store? || Intended(c).Extend? || Intended(c).Line?
  }

  lemma {:induction false} IntendedAmong(cs: seq<Command>, c: Command)
    requires c in cs
    ensures Intended(c) in AllIntended(cs)
  {
    if cs[0] != c {
      IntendedAmong(cs[1..], c);
    }
  }

  lemma UnspacedIsLost(cs: seq<Command>, c: Command, s: Bytes)
    requires c in cs && Sendable(c) && Carries(c) && !WellFormed(c)
    ensures Commands(s) != AllIntended(cs)
  {
    CommandsSpaced(s);
    IntendedAmong(cs, c);
    assert !Spaced(Intended(c));
  }

  /**
    A stream of commands is served as intended if and only if every key and every other word in it is
    free of space, of the characters beyond ASCII as well.
   */
  lemma SyncKeptWhen(cs: seq<Command>, s: Bytes)
    requires (forall c :: c in cs ==> Sendable(c) && (WellFormed(c) || Carries(c))) && s == PrintAll(cs)
    ensures Commands(s) == AllIntended(cs) <==> forall c :: c in cs ==> WellFormed(c)
  {
    if c :| c in cs && !WellFormed(c) {
      UnspacedIsLost(cs, c, s);
    } else {
      StreamStaysInSync(cs, s);
    }
  }

  /** A line whose key is two words with a space character between them. */
  function SplitLine(word: Bytes, a: Bytes, space: Bytes, b: Bytes, more: seq<Bytes>): seq<Bytes> {
    [word, a + space + b] + more
  }

  lemma JoinedSplit(word: Bytes, a: Bytes, space: Bytes, b: Bytes, more: seq<Bytes>)
    requires more != []
    ensures Join(SplitLine(word, a, space, b, more)) ==
            word + ([SPACE] + (a + (space + (b + ([SPACE] + Join(more))))))
  {
    var line := SplitLine(word, a, space, b, more);
    assert line[1..] == [a + space + b] + more && line[2..] == more;
    assert Join(line[1..]) == a + space + b + [SPACE] + Join(more);
  }

  lemma SpaceThenWords(space: Bytes, rest: Bytes)
    requires space != [] && SpaceLength(space) == |space|
    ensures Fields(space + rest) == Fields(rest) && Ends(space + rest)
  {
    assert (space + rest)[|space|..] == rest;
  }

  lemma FieldsOfSplit(word: Bytes, a: Bytes, space: Bytes, b: Bytes, last: Bytes)
    requires IsWord(word) && IsWord(a) && IsWord(b) && space != [] && SpaceLength(space) == |space|
    ensures Fields(word + ([SPACE] + (a + (space + (b + ([SPACE] + last)))))) == [word, a, b] + Fields(last)
  {
    var third := b + ([SPACE] + last);
    NextWord(b, last);
    SpaceThenWords(space, third);
    FirstWord(a, space + third);
    NextWord(word, a + (space + third));
  }

  /** The words of such a line are one more. */
  lemma SplitKeyWords(word: Bytes, a: Bytes, space: Bytes, b: Bytes, more: seq<Bytes>)
    requires IsWord(word) && IsWord(a) && IsWord(b) && AllWords(more) && more != []
    requires space != [] && SpaceLength(space) == |space|
    ensures Fields(Join(SplitLine(word, a, space, b, more)) + LINE_END) == [word, a, b] + more
  {
    var last := Join(more) + LINE_END;
    JoinedSplit(word, a, space, b, more);
    FieldsOfJoined(more, LINE_END);
    FieldsOfSplit(word, a, space, b, last);
    assert Join(SplitLine(word, a, space, b, more)) + LINE_END
        == word + ([SPACE] + (a + (space + (b + ([SPACE] + last)))));
  }

  lemma NoNewlineInSplit(word: Bytes, a: Bytes, space: Bytes, b: Bytes, more: seq<Bytes>)
    requires IsWord(word) && IsWord(a) && IsWord(b) && AllWords(more) && more != [] && NEWLINE !in space
    ensures NEWLINE !in Join(SplitLine(word, a, space, b, more))
  {
    JoinedSplit(word, a, space, b, more);
    NoNewlineInWords([word]);
    NoNewlineInWords([a]);
    NoNewlineInWords([b]);
    NoNewlineInWords(more);
  }

  /** The words of a storage line after its key. */
  function AfterKey(c: Command): seq<Bytes>
    requires c.Storage?
  {
    [Format(c.flags), FormatInt(c.exptime), Format(|c.data|)] + NoreplyWords(c.noreply)
  }

  lemma AfterKeyWords(c: Command)
    requires c.Storage?
    ensures AllWords(AfterKey(c)) && AfterKey(c) != [] && LineOf(c) == [CommandWord(c.op), c.key] + AfterKey(c)
  {
    AreWords();
    NumbersAreWords(c.flags);
    NumbersAreWords(c.exptime);
    NumbersAreWords(|c.data|);
  }

  /** Without a number where the flags should be, a storage line takes nothing but itself. */
  lemma RefusedAtOnce(op: Shard.Op, words: seq<Bytes>, rest: Bytes)
    requires |words| > 2 && KindOf(words[0]) == StoreKind(op) && ParseUint(words[2], TWO_TO_THE_32).None?
    ensures Serve(words, rest) == (BadFormat, rest)
  {
  }

  /**
    A key that a space character splits in two: unless its second half is a number, the line is
    refused, and the data block is left in the stream and read as commands.
   */
  lemma SplitKeyLosesSync(c: Command, a: Bytes, space: Bytes, b: Bytes, rest: Bytes)
    requires c.Storage? && Sendable(c) && c.key == a + space + b && IsWord(a) && IsWord(b)
    requires space != [] && SpaceLength(space) == |space| && NEWLINE !in space
    requires ParseUint(b, TWO_TO_THE_32).None?
    ensures Commands(Print(c) + rest) == [BadFormat] + Commands(c.data + LINE_END + rest)
  {
    var word, s, block := CommandWord(c.op), Print(c) + rest, c.data + LINE_END + rest;
    AfterKeyWords(c);
    AreWords();
    CommandWords(c.op);
    SplitKeyWords(word, a, space, b, AfterKey(c));
    NoNewlineInSplit(word, a, space, b, AfterKey(c));
    RefusedAtOnce(c.op, [word, a, b] + AfterKey(c), block);
    PrintedLine(c, rest);
    NextCommand(Join(LineOf(c)), block, s, [word, a, b] + AfterKey(c));
  }

  /** A block of one word that is no command word is a command of its own. */
  lemma BlockAsCommand(data: Bytes)
    requires IsWord(data) && KindOf(data).LineKind?
    ensures Commands(data + LINE_END + []) == [Line([data])]
  {
    NoNewlineInWords([data]);
    FieldsOfJoined([data], LINE_END);
    NextCommand(data, [], data + LINE_END + [], [data]);
  }

  lemma SpaceLosesSync(c: Command, a: Bytes, space: Bytes, b: Bytes)
    requires c.Storage? && Sendable(c) && c.key == a + space + b && IsWord(a) && IsWord(b)
    requires space != [] && SpaceLength(space) == |space| && NEWLINE !in space
    requires ParseUint(b, TWO_TO_THE_32).None? && IsWord(c.data) && KindOf(c.data).LineKind?
    ensures Commands(Print(c)) == [BadFormat, Line([c.data])]
  {
    SplitKeyLosesSync(c, a, space, b, []);
    BlockAsCommand(c.data);
    assert Print(c) + [] == Print(c);
  }

  /** With a no-break space in the key, three bytes of data become a command of their own. */
  lemma NoBreakSpaceLosesSync() returns (c: Command)
    ensures c.Storage? && Sendable(c) && c.key == [97, 0xC2, 0xA0, 98]
    ensures Commands(Print(c)) == [BadFormat, Line([c.data])]
  {
    var a: Bytes, space: Bytes, b: Bytes, data: Bytes := [97], [0xC2, 0xA0], [98], [1, 2, 3];
    c := Storage(Shard.Set, a + space + b, 0, 0, data, false);
    AsciiWord(a);
    AsciiWord(b);
    AsciiWord(data);
    assert ToUpper(data)[0] == 1;
    SpaceLosesSync(c, a, space, b);
  }
}
