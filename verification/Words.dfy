/** Lines of words: what Go's string functions make of a command line, of whatever bytes. */
module Words {
  import opened Basics
  import opened Decimal

  const NEWLINE: byte := 10
  const RETURN: byte := 13
  const SPACE: byte := 32
  const PLUS: byte := 43
  const MINUS: byte := 45

  // ---------- Space ----------

  predicate IsSpace(b: byte) {
    9 <= b <= 13 || b == SPACE
  }

  /** The UTF-8 encodings of U+0085 and U+00A0. */
  predicate TwoByteSpace(a: byte, b: byte) {
    a == 0xC2 && (b == 0x85 || b == 0xA0)
  }

  /** The UTF-8 encodings of U+1680, U+2000 to U+200A, U+2028, U+2029, U+202F, U+205F and U+3000. */
  predicate ThreeByteSpace(a: byte, b: byte, c: byte) {
    || (a == 0xE1 && b == 0x9A && c == 0x80)
    || (a == 0xE2 && b == 0x80 && (0x80 <= c <= 0x8A || c == 0xA8 || c == 0xA9 || c == 0xAF))
    || (a == 0xE2 && b == 0x81 && c == 0x9F)
    || (a == 0xE3 && b == 0x80 && c == 0x80)
  }

  /**
    The length of the space character that a text begins with; zero if it begins with something else.
    The characters are those of `unicode.IsSpace`. Each encoding begins with a byte that occurs in no
    other place of any encoding, so it is enough to look at the bytes, also in a text that is not UTF-8.
   */
  function SpaceLength(s: Bytes): (n: nat)
    ensures n <= |s|
  {
    if |s| >= 1 && IsSpace(s[0]) then 1
    else if |s| >= 2 && TwoByteSpace(s[0], s[1]) then 2
    else if |s| >= 3 && ThreeByteSpace(s[0], s[1], s[2]) then 3
    else 0
  }

  /** The length of the space character that a text ends with. */
  function EndSpaceLength(s: Bytes): (n: nat)
    ensures n <= |s| && (n > 0 ==> SpaceLength(s[|s| - n..]) == n)
  {
    if |s| >= 1 && SpaceLength(s[|s| - 1..]) == 1 then 1
    else if |s| >= 2 && SpaceLength(s[|s| - 2..]) == 2 then 2
    else if |s| >= 3 && SpaceLength(s[|s| - 3..]) == 3 then 3
    else 0
  }

  /** No space character begins anywhere in a word. */
  predicate IsWord(w: Bytes) {
    w != [] && forall i :: 0 <= i < |w| ==> SpaceLength(w[i..]) == 0
  }

  /** What follows does not matter if it is nothing or begins with space. */
  predicate Ends(rest: Bytes) {
    rest == [] || SpaceLength(rest) > 0
  }

  lemma SpaceBeforeEnd(s: Bytes, rest: Bytes)
    requires s != [] && Ends(rest)
    ensures SpaceLength(s + rest) == SpaceLength(s)
  {
  }

  // ---------- Splitting and joining ----------

  function WordLength(s: Bytes): (n: nat)
    ensures n <= |s| && (forall i :: 0 <= i < n ==> SpaceLength(s[i..]) == 0) && Ends(s[n..])
  {
    if s == [] || SpaceLength(s) > 0 then 0
    else
      assert forall i :: 0 < i <= |s| ==> s[1..][i - 1..] == s[i..];
      1 + WordLength(s[1..])
  }

  /** The words of a line: `strings.Fields`. */
  function Fields(s: Bytes): seq<Bytes>
    decreases |s|
  {
    if s == [] then []
    else if SpaceLength(s) > 0 then Fields(s[SpaceLength(s)..])
    else [s[..WordLength(s)]] + Fields(s[WordLength(s)..])
  }

  /** `strings.TrimSpace`. */
  function TrimSpace(s: Bytes): (t: Bytes)
    ensures SpaceLength(t) == 0
    decreases |s|
  {
    if SpaceLength(s) > 0 then TrimSpace(s[SpaceLength(s)..])
    else if EndSpaceLength(s) > 0 then TrimSpace(s[..|s| - EndSpaceLength(s)])
    else s
  }

  lemma {:induction false} WordLengthIs(w: Bytes, rest: Bytes)
    requires (forall i :: 0 <= i < |w| ==> SpaceLength(w[i..]) == 0) && Ends(rest)
    ensures WordLength(w + rest) == |w|
  {
    if w == [] {
      assert w + rest == rest;
    } else {
      assert w[0..] == w;
      SpaceBeforeEnd(w, rest);
      forall i | 0 <= i < |w| - 1
        ensures SpaceLength(w[1..][i..]) == 0
      {
        assert w[1..][i..] == w[i + 1..];
      }
      WordLengthIs(w[1..], rest);
      assert (w + rest)[1..] == w[1..] + rest;
    }
  }

  lemma FirstWord(w: Bytes, rest: Bytes)
    requires IsWord(w) && Ends(rest)
    ensures Fields(w + rest) == [w] + Fields(rest)
  {
    WordLengthIs(w, rest);
    assert w[0..] == w;
    SpaceBeforeEnd(w, rest);
    assert (w + rest)[..|w|] == w && (w + rest)[|w|..] == rest;
  }

  /** The first bytes of a text up to the end of its first word are that word. */
  lemma FirstWordIsWord(s: Bytes)
    requires s != [] && SpaceLength(s) == 0
    ensures IsWord(s[..WordLength(s)])
  {
    var w := s[..WordLength(s)];
    forall i | 0 <= i < |w|
      ensures SpaceLength(w[i..]) == 0
    {
      assert w[i..] == s[i..][..|w| - i];
    }
  }

  /** Whatever a line is split into, the parts are words. */
  lemma {:induction false} FieldsAreWords(s: Bytes)
    ensures AllWords(Fields(s))
    decreases |s|
  {
    if s == [] {
    } else if SpaceLength(s) > 0 {
      FieldsAreWords(s[SpaceLength(s)..]);
    } else {
      FirstWordIsWord(s);
      FieldsAreWords(s[WordLength(s)..]);
    }
  }

  /** More space after a line does not change its first word. */
  lemma SameFirstWord(s: Bytes, space: Bytes, n: nat)
    requires s != [] && SpaceLength(s) == 0 && space != [] && SpaceLength(space) == |space|
    requires n == WordLength(s)
    ensures IsWord(s[..n]) && Ends(s[n..] + space) && s + space == s[..n] + (s[n..] + space)
  {
    FirstWordIsWord(s);
    if n < |s| {
      SpaceBeforeEnd(s[n..], space);
    } else {
      assert s[n..] + space == space;
    }
  }

  lemma SameFirstSpace(s: Bytes, space: Bytes, n: nat)
    requires n == SpaceLength(s) > 0 && space != [] && SpaceLength(space) == |space|
    ensures SpaceLength(s + space) == n && (s + space)[n..] == s[n..] + space
  {
    SpaceBeforeEnd(s, space);
  }

  /** A space character at the end of a line adds no word. */
  lemma {:induction false} FieldsBeforeSpace(s: Bytes, space: Bytes, t: Bytes)
    requires space != [] && SpaceLength(space) == |space| && t == s + space
    ensures Fields(t) == Fields(s)
    decreases |s|
  {
    if s == [] {
      assert t == space && space[|space|..] == [];
    } else if SpaceLength(s) > 0 {
      var n := SpaceLength(s);
      SameFirstSpace(s, space, n);
      FieldsBeforeSpace(s[n..], space, t[n..]);
    } else {
      var n := WordLength(s);
      var rest := s[n..] + space;
      SameFirstWord(s, space, n);
      FieldsBeforeSpace(s[n..], space, rest);
      FirstWord(s[..n], rest);
    }
  }

  lemma {:induction false} TrimKeepsFields(s: Bytes)
    ensures Fields(TrimSpace(s)) == Fields(s)
    decreases |s|
  {
    var m, n := SpaceLength(s), EndSpaceLength(s);
    if m > 0 {
      TrimKeepsFields(s[m..]);
    } else if n > 0 {
      TrimKeepsFields(s[..|s| - n]);
      assert s == s[..|s| - n] + s[|s| - n..];
      FieldsBeforeSpace(s[..|s| - n], s[|s| - n..], s);
    }
  }

  /** Trimming a line does not change its words, and leaves nothing exactly if there are none. */
  lemma FieldsOfTrimmed(s: Bytes)
    ensures Fields(TrimSpace(s)) == Fields(s)
    ensures TrimSpace(s) == [] <==> Fields(s) == []
  {
    TrimKeepsFields(s);
  }

  /** Words with single spaces between them. */
  function Join(words: seq<Bytes>): Bytes {
    if words == [] then []
    else if |words| == 1 then words[0]
    else words[0] + [SPACE] + Join(words[1..])
  }

  ghost predicate AllWords(words: seq<Bytes>) {
    forall w :: w in words ==> IsWord(w)
  }

  lemma JoinedNext(words: seq<Bytes>, rest: Bytes)
    requires |words| > 1
    ensures Join(words) + rest == words[0] + ([SPACE] + (Join(words[1..]) + rest))
  {
  }

  lemma HeadAndTail(words: seq<Bytes>)
    requires words != [] && AllWords(words)
    ensures IsWord(words[0]) && AllWords(words[1..]) && [words[0]] + words[1..] == words
  {
  }

  /** Joined words are split again, whatever ASCII space follows them. */
  lemma {:induction false} FieldsOfJoined(words: seq<Bytes>, rest: Bytes)
    requires AllWords(words) && forall i :: 0 <= i < |rest| ==> IsSpace(rest[i])
    ensures Fields(Join(words) + rest) == words
  {
    if words == [] {
      OnlySpace(rest);
      assert Join(words) + rest == rest;
    } else {
      HeadAndTail(words);
      if |words| == 1 {
        FirstWord(words[0], rest);
        OnlySpace(rest);
      } else {
        FieldsOfJoined(words[1..], rest);
        JoinedNext(words, rest);
        NextWord(words[0], Join(words[1..]) + rest);
      }
    }
  }

  lemma NextWord(w: Bytes, tail: Bytes)
    requires IsWord(w)
    ensures Fields(w + ([SPACE] + tail)) == [w] + Fields(tail)
  {
    FirstWord(w, [SPACE] + tail);
    assert ([SPACE] + tail)[1..] == tail;
  }

  lemma {:induction false} OnlySpace(s: Bytes)
    requires forall i :: 0 <= i < |s| ==> IsSpace(s[i])
    ensures Fields(s) == []
  {
    if s != [] {
      OnlySpace(s[1..]);
    }
  }

  lemma {:induction false} NoNewlineInWords(words: seq<Bytes>)
    requires AllWords(words)
    ensures NEWLINE !in Join(words)
  {
    if words != [] {
      var w := words[0];
      assert w in words;
      forall i | 0 <= i < |w|
        ensures w[i] != NEWLINE
      {
        assert SpaceLength(w[i..]) == 0 && w[i..][0] == w[i];
      }
      NoNewlineInWords(words[1..]);
    }
  }

  function UpperByte(b: byte): byte {
    if 97 <= b <= 122 then b - 32 else b
  }

  /**
    `strings.ToUpper`, as far as a comparison with ASCII text can tell: the two other letters whose
    capitals are ASCII are U+0131, a dotless i, and U+017F, a long s; every other character that is
    not ASCII stays one that is not.
   */
  function ToUpper(w: Bytes): Bytes {
    if w == [] then []
    else if |w| >= 2 && w[0] == 0xC4 && w[1] == 0xB1 then [73] + ToUpper(w[2..])
    else if |w| >= 2 && w[0] == 0xC5 && w[1] == 0xBF then [83] + ToUpper(w[2..])
    else [UpperByte(w[0])] + ToUpper(w[1..])
  }

  /** Capitals stay as they are. */
  lemma {:induction false} UpperStays(w: Bytes)
    requires forall i :: 0 <= i < |w| ==> w[i] < 97
    ensures ToUpper(w) == w
  {
    if w != [] {
      UpperStays(w[1..]);
    }
  }

  // ---------- Lines ----------

  /** The length of the first line, its newline included; none if there is no newline. */
  function LineLength(s: Bytes): (n: Option<nat>)
    ensures n.Some? ==> 0 < n.value <= |s| && s[n.value - 1] == NEWLINE && NEWLINE !in s[..n.value - 1]
    ensures n.None? ==> NEWLINE !in s
  {
    if s == [] then None
    else if s[0] == NEWLINE then Some(1)
    else
      var n := LineLength(s[1..]);
      if n.None? then None
      else
        assert s[..n.value] == [s[0]] + s[1..][..n.value - 1];
        Some(n.value + 1)
  }

  lemma {:induction false} LineEnds(line: Bytes, rest: Bytes)
    requires NEWLINE !in line
    ensures LineLength(line + [NEWLINE] + rest) == Some(|line| + 1)
  {
    if line != [] {
      LineEnds(line[1..], rest);
      assert (line + [NEWLINE] + rest)[1..] == line[1..] + [NEWLINE] + rest;
    }
  }

  // ---------- Signed numbers ----------

  const TWO_TO_THE_63: int := 0x8000_0000_0000_0000

  /** `strconv.ParseInt(s, 10, 64)`, and `strconv.Atoi` where an int has 64 bits. */
  function ParseInt(s: Bytes): Option<int> {
    if s == [] then None
    else
      var digits := if s[0] == PLUS || s[0] == MINUS then s[1..] else s;
      var magnitude := ParseUint(digits, if s[0] == MINUS then TWO_TO_THE_63 + 1 else TWO_TO_THE_63);
      if magnitude.None? then None else Some(if s[0] == MINUS then -(magnitude.value as int) else magnitude.value)
  }

  function LeadingDigits(s: Bytes): (d: Bytes)
    ensures AllDigits(d)
  {
    if s == [] || !IsDigit(s[0]) then [] else [s[0]] + LeadingDigits(s[1..])
  }

  lemma {:induction false} AllLeading(s: Bytes)
    requires AllDigits(s)
    ensures LeadingDigits(s) == s
  {
    if s != [] {
      AllLeading(s[1..]);
    }
  }

  /**
    The number that `strconv.ParseInt(s, 10, 64)` returns next to its error: the nearest one in range
    if the digits read so far are too many, and zero if something else is wrong.
   */
  function ParseClamped(s: Bytes): (n: int)
    ensures -TWO_TO_THE_63 <= n < TWO_TO_THE_63
  {
    if s == [] then 0
    else
      var digits := if s[0] == PLUS || s[0] == MINUS then s[1..] else s;
      var lead := LeadingDigits(digits);
      if lead == [] || (lead != digits && Value(lead) < TWO_TO_THE_64) then 0
      else if s[0] == MINUS then (if Value(lead) > TWO_TO_THE_63 then -TWO_TO_THE_63 else -(Value(lead) as int))
      else if Value(lead) >= TWO_TO_THE_63 then TWO_TO_THE_63 - 1
      else Value(lead)
  }

  /** It is the number itself if that is in range. */
  lemma ClampedParsed(s: Bytes)
    ensures ParseInt(s).Some? ==> ParseClamped(s) == ParseInt(s).value
  {
    if ParseInt(s).Some? {
      AllLeading(if s[0] == PLUS || s[0] == MINUS then s[1..] else s);
    }
  }

  /** It is the nearest number in range if the number is not, and zero if no digit comes first. */
  lemma ClampedBeyond(s: Bytes, digits: Bytes)
    ensures s == digits && IsNumber(digits) && Value(digits) >= TWO_TO_THE_63 ==> ParseClamped(s) == TWO_TO_THE_63 - 1
    ensures s == [MINUS] + digits && IsNumber(digits) && Value(digits) > TWO_TO_THE_63 ==>
              ParseClamped(s) == -TWO_TO_THE_63
    ensures (s == [MINUS] + digits || s == [PLUS] + digits) && !StartsNumber(digits) ==> ParseClamped(s) == 0
    ensures s == [] || (!IsDigit(s[0]) && s[0] != PLUS && s[0] != MINUS) ==> ParseClamped(s) == 0
  {
    if IsNumber(digits) {
      AllLeading(digits);
    }
    assert ([MINUS] + digits)[1..] == digits && ([PLUS] + digits)[1..] == digits;
  }

  predicate IsNumber(s: Bytes) {
    s != [] && AllDigits(s)
  }

  predicate StartsNumber(s: Bytes) {
    s != [] && IsDigit(s[0])
  }

  function FormatInt(n: int): Bytes {
    if n < 0 then [MINUS] + Format(-n) else Format(n)
  }

  lemma ParseFormatInt(n: int)
    requires -TWO_TO_THE_63 <= n < TWO_TO_THE_63
    ensures ParseInt(FormatInt(n)) == Some(n)
  {
    if n < 0 {
      ParseFormat(-n, TWO_TO_THE_63 + 1);
      assert FormatInt(n)[1..] == Format(-n);
    } else {
      ParseFormat(n, TWO_TO_THE_63);
      FormatDenotes(n);
      assert IsDigit(Format(n)[0]);
    }
  }

  lemma AsciiWord(w: Bytes)
    requires w != [] && forall i :: 0 <= i < |w| ==> w[i] < 0x80 && !IsSpace(w[i])
    ensures IsWord(w)
  {
    forall i | 0 <= i < |w|
      ensures SpaceLength(w[i..]) == 0
    {
      assert w[i..][0] == w[i];
    }
  }

  lemma NumbersAreWords(n: int)
    ensures IsWord(FormatInt(n)) && (n >= 0 ==> IsWord(Format(n)))
  {
    FormatDenotes(if n < 0 then -n else n);
    AsciiWord(FormatInt(n));
  }
}
