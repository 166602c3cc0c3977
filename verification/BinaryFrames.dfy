/**
  The binary protocol's frames: a 24-byte header, then extras, key and value.

  Printing and parsing frames undo each other, so a stream of frames is read back as the list that
  was written, by the server's request loop as well as by a client.
 */
module BinaryFrames {
  import opened Basics

  // ---------- Big-endian numbers ----------

  /** The number in a field of eight bytes. */
  function Number64(b: Bytes): (n: uint64)
    requires |b| == 8
    ensures n == FromBigEndian(b)
  {
    WriteBack(b);
    FieldSizes();
    FromBigEndian(b)
  }

  /** The lowest `width` bytes of a number, highest first. */
  function BigEndian(n: nat, width: nat): (b: Bytes)
    ensures |b| == width
  {
    if width == 0 then [] else BigEndian(n / 0x100, width - 1) + [n % 0x100]
  }

  function FromBigEndian(b: Bytes): nat {
    if b == [] then 0 else FromBigEndian(b[..|b| - 1]) * 0x100 + b[|b| - 1]
  }

  function Pow256(width: nat): (p: nat)
    ensures p > 0
  {
    if width == 0 then 1 else 0x100 * Pow256(width - 1)
  }

  /** Numbers that fit their field are read back as they were written. */
  lemma {:induction false} ReadBack(n: nat, width: nat)
    requires n < Pow256(width)
    ensures FromBigEndian(BigEndian(n, width)) == n
  {
    if width > 0 {
      ReadBack(n / 0x100, width - 1);
      var b := BigEndian(n, width);
      assert b[..|b| - 1] == BigEndian(n / 0x100, width - 1);
    }
  }

  /** Every field content is the notation of some number that fits it. */
  lemma {:induction false} WriteBack(b: Bytes)
    ensures FromBigEndian(b) < Pow256(|b|) && BigEndian(FromBigEndian(b), |b|) == b
  {
    if b != [] {
      WriteBack(b[..|b| - 1]);
      assert b == b[..|b| - 1] + [b[|b| - 1]];
    }
  }

  lemma FieldSizes()
    ensures Pow256(2) == 0x1_0000 && Pow256(4) == 0x1_0000_0000 && Pow256(8) == TWO_TO_THE_64
  {
    assert Pow256(2) == 0x100 * Pow256(1);
    assert Pow256(4) == 0x100 * Pow256(3) == 0x1_0000 * Pow256(2);
    assert Pow256(6) == 0x100 * Pow256(5) == 0x1_0000 * Pow256(4);
    assert Pow256(8) == 0x100 * Pow256(7) == 0x1_0000 * Pow256(6);
  }

  // ---------- Frames ----------

  const REQUEST_MAGIC: byte := 0x80
  const RESPONSE_MAGIC: byte := 0x81
  const HEADER_LENGTH: nat := 24

  // The operations.
  const GET: byte := 0x00
  const SET: byte := 0x01
  const ADD: byte := 0x02
  const REPLACE: byte := 0x03
  const DELETE: byte := 0x04
  const INCREMENT: byte := 0x05
  const DECREMENT: byte := 0x06
  const QUIT: byte := 0x07
  const FLUSH: byte := 0x08
  const GETQ: byte := 0x09
  const NOOP: byte := 0x0A
  const VERSION: byte := 0x0B
  const GETK: byte := 0x0C
  const GETKQ: byte := 0x0D
  const APPEND: byte := 0x0E
  const PREPEND: byte := 0x0F
  const STAT: byte := 0x10
  const TOUCH: byte := 0x1C
  const GAT: byte := 0x1D
  const GATK: byte := 0x1E

  // The statuses that the server sends.
  const SUCCESS: nat := 0x0000
  const KEY_NOT_FOUND: nat := 0x0001
  const INVALID_ARGS: nat := 0x0004
  const ITEM_NOT_STORED: nat := 0x0005
  const UNKNOWN_COMMAND: nat := 0x0081

  /** A request or a response; `status` is the virtual bucket in a request. */
  datatype Frame = Frame(opcode: byte, extras: Bytes, key: Key, value: Bytes, dataType: byte, status: nat,
                         opaque32: nat, cas: nat)

  function Body(f: Frame): Bytes {
    f.extras + f.key + f.value
  }

  /** The header; numbers too large for their field lose their high bytes. */
  function Header(magic: byte, f: Frame): (h: Bytes)
    ensures |h| == HEADER_LENGTH
  {
    [magic, f.opcode] + BigEndian(|f.key|, 2) + [|f.extras| % 0x100, f.dataType] + BigEndian(f.status, 2)
    + BigEndian(|Body(f)|, 4) + BigEndian(f.opaque32, 4) + BigEndian(f.cas, 8)
  }

  function Print(magic: byte, f: Frame): Bytes {
    Header(magic, f) + Body(f)
  }

  predicate Fits(f: Frame) {
    && |f.extras| < 0x100 && |f.key| < 0x1_0000 && |Body(f)| < 0x1_0000_0000
    && f.status < 0x1_0000 && f.opaque32 < 0x1_0000_0000 && f.cas < TWO_TO_THE_64
  }

  /** `Overrun` is a frame whose extras and key are longer than its body. */
  datatype Parsed = Got(frame: Frame, rest: Bytes) | End | BadMagic | Overrun

  function BodyLength(h: Bytes): nat
    requires |h| >= HEADER_LENGTH
  {
    FromBigEndian(h[8..12])
  }

  /** The parts of a body, by the lengths in the header. */
  function Split(h: Bytes, body: Bytes): Option<Frame>
    requires |h| >= HEADER_LENGTH
  {
    var e, k := h[4] as nat, FromBigEndian(h[2..4]);
    if e + k > |body| then None
    else Some(Frame(h[1], body[..e], body[e..e + k], body[e + k..], h[5], FromBigEndian(h[6..8]),
                    FromBigEndian(h[12..16]), FromBigEndian(h[16..24])))
  }

  function Parse(magic: byte, s: Bytes): Parsed {
    if |s| < HEADER_LENGTH then End
    else if s[0] != magic then BadMagic
    else
      var n := HEADER_LENGTH + BodyLength(s);
      if |s| < n then End
      else
        var f := Split(s, s[HEADER_LENGTH..n]);
        if f.None? then Overrun else Got(f.value, s[n..])
  }

  /** The fields of a printed header, wherever it stands. */
  lemma HeaderFields(magic: byte, f: Frame, s: Bytes)
    requires Fits(f) && |s| >= HEADER_LENGTH && s[..HEADER_LENGTH] == Header(magic, f)
    ensures s[0] == magic && s[1] == f.opcode && s[4] == |f.extras| && s[5] == f.dataType
    ensures FromBigEndian(s[2..4]) == |f.key| && FromBigEndian(s[6..8]) == f.status
    ensures BodyLength(s) == |Body(f)| && FromBigEndian(s[12..16]) == f.opaque32 && FromBigEndian(s[16..24]) == f.cas
  {
    var h := Header(magic, f);
    FieldSizes();
    ReadBack(|f.key|, 2);
    ReadBack(f.status, 2);
    ReadBack(|Body(f)|, 4);
    ReadBack(f.opaque32, 4);
    ReadBack(f.cas, 8);
    assert s[2..4] == h[2..4] == BigEndian(|f.key|, 2);
    assert s[6..8] == h[6..8] == BigEndian(f.status, 2);
    assert s[8..12] == h[8..12] == BigEndian(|Body(f)|, 4);
    assert s[12..16] == h[12..16] == BigEndian(f.opaque32, 4);
    assert s[16..24] == h[16..24] == BigEndian(f.cas, 8);
    assert s[0] == h[0] && s[1] == h[1] && s[4] == h[4] && s[5] == h[5];
  }

  /** What is printed is parsed back, whatever follows it in the stream. */
  lemma ParsePrint(magic: byte, f: Frame, rest: Bytes)
    requires Fits(f)
    ensures Parse(magic, Print(magic, f) + rest) == Got(f, rest)
  {
    var s := Print(magic, f) + rest;
    var n := HEADER_LENGTH + |Body(f)|;
    assert s[..HEADER_LENGTH] == Header(magic, f);
    HeaderFields(magic, f, s);
    assert s[HEADER_LENGTH..n] == Body(f) && s[n..] == rest;
    var e, k := |f.extras|, |f.key|;
    assert Body(f)[..e] == f.extras && Body(f)[e..e + k] == f.key && Body(f)[e + k..] == f.value;
  }

  /** And what is parsed was printed: no two streams parse to the same frame and rest. */
  lemma PrintParse(magic: byte, s: Bytes)
    requires Parse(magic, s).Got?
    ensures var (f, rest) := (Parse(magic, s).frame, Parse(magic, s).rest);
            Fits(f) && s == Print(magic, f) + rest && |rest| < |s|
  {
    var f, rest := Parse(magic, s).frame, Parse(magic, s).rest;
    FieldSizes();
    WriteBack(s[2..4]);
    WriteBack(s[6..8]);
    WriteBack(s[8..12]);
    WriteBack(s[12..16]);
    WriteBack(s[16..24]);
    var n := HEADER_LENGTH + BodyLength(s);
    assert Body(f) == s[HEADER_LENGTH..n];
    assert Header(magic, f) == s[..HEADER_LENGTH];
    assert s == s[..HEADER_LENGTH] + s[HEADER_LENGTH..n] + s[n..];
  }

  // ---------- Streams of frames ----------

  function PrintAll(magic: byte, frames: seq<Frame>): Bytes {
    if frames == [] then [] else Print(magic, frames[0]) + PrintAll(magic, frames[1..])
  }

  function ParseAll(magic: byte, s: Bytes): seq<Frame>
    decreases |s|
  {
    match Parse(magic, s)
    case Got(f, rest) => PrintParse(magic, s); [f] + ParseAll(magic, rest)
    case _ => []
  }

  /** A stream of frames is read back as the list that was written. */
  lemma {:induction false} ParsePrintAll(magic: byte, frames: seq<Frame>)
    requires forall f :: f in frames ==> Fits(f)
    ensures ParseAll(magic, PrintAll(magic, frames)) == frames
  {
    if frames != [] {
      ParsePrint(magic, frames[0], PrintAll(magic, frames[1..]));
      ParsePrintAll(magic, frames[1..]);
    }
  }
}
