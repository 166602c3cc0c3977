/**
  The binary protocol as the server and a client run it: the request loop over a pooled body buffer,
  the response writer that fills its header in place, and the client's own encoder and reader.
 */
module BinaryServer {
  import opened Basics
  import opened Streams
  import opened BinaryFrames

  // ---------- Numbers in buffers ----------

  method PutBigEndian(buf: array<byte>, at: nat, width: nat, n: nat)
    requires at + width <= buf.Length
    modifies buf
    ensures buf[at..at + width] == BigEndian(n, width)
    ensures forall i :: 0 <= i < buf.Length && !(at <= i < at + width) ==> buf[i] == old(buf[i])
  {
    var i, v := width, n;
    while i > 0
      invariant 0 <= i <= width && 0 <= v
      invariant BigEndian(n, width) == BigEndian(v, i) + buf[at + i..at + width]
      invariant forall j :: 0 <= j < buf.Length && !(at + i <= j < at + width) ==> buf[j] == old(buf[j])
    {
      i := i - 1;
      ghost var done := buf[at + i + 1..at + width];
      buf[at + i] := v % 0x100;
      assert buf[at + i..at + width] == [v % 0x100] + done;
      v := v / 0x100;
    }
  }

  // ---------- Responses ----------

  /** Fills a response header in place. */
  method FillHeader(buf: array<byte>, f: Frame)
    requires buf.Length == HEADER_LENGTH && f.dataType == 0
    modifies buf
    ensures buf[..] == Header(RESPONSE_MAGIC, f)
  {
    buf[0] := RESPONSE_MAGIC;
    buf[1] := f.opcode;
    PutBigEndian(buf, 2, 2, |f.key|);
    buf[4] := |f.extras| % 0x100;
    buf[5] := 0;
    PutBigEndian(buf, 6, 2, f.status);
    PutBigEndian(buf, 8, 4, |Body(f)|);
    PutBigEndian(buf, 12, 4, f.opaque32);
    PutBigEndian(buf, 16, 8, f.cas);
    HeaderFilled(buf[..], RESPONSE_MAGIC, f);
  }

  /** Writes a header, then whatever parts there are. */
  method SendBinaryResponse(writer: Writer, req: Frame, status: nat, extras: Bytes, key: Bytes, value: Bytes, cas: nat)
    modifies writer
    ensures writer.output ==
            old(writer.output) +
            Print(RESPONSE_MAGIC, Frame(req.opcode, extras, key, value, 0, status, req.opaque32, cas))
  {
    var f := Frame(req.opcode, extras, key, value, 0, status, req.opaque32, cas);
    var buf := new byte[HEADER_LENGTH];
    FillHeader(buf, f);
    writer.Write(buf);
    if |extras| > 0 {
      writer.WriteBytes(extras);
    }
    if |key| > 0 {
      writer.WriteBytes(key);
    }
    if |value| > 0 {
      writer.WriteBytes(value);
    }
    assert writer.output == old(writer.output) + Header(RESPONSE_MAGIC, f) + extras + key + value;
  }

  /** A buffer whose fields have been filled in is the header. */
  lemma HeaderFilled(h: Bytes, magic: byte, f: Frame)
    requires |h| == HEADER_LENGTH
    requires h[0] == magic && h[1] == f.opcode && h[4] == |f.extras| % 0x100 && h[5] == f.dataType
    requires h[2..4] == BigEndian(|f.key|, 2) && h[6..8] == BigEndian(f.status, 2)
    requires h[8..12] == BigEndian(|Body(f)|, 4) && h[12..16] == BigEndian(f.opaque32, 4)
    requires h[16..24] == BigEndian(f.cas, 8)
    ensures h == Header(magic, f)
  {
    assert h[..2] == [magic, f.opcode] && h[4..6] == [|f.extras| % 0x100, f.dataType];
    assert h[..4] == h[..2] + h[2..4];
    assert h[..6] == h[..4] + h[4..6];
    assert h[..8] == h[..6] + h[6..8];
    assert h[..12] == h[..8] + h[8..12];
    assert h[..16] == h[..12] + h[12..16];
    assert h == h[..16] + h[16..24];
  }

  // ---------- The client ----------

  /** A request with nothing but an opcode, extras, a key and a value. */
  function Plain(opcode: byte, extras: Bytes, key: Key, value: Bytes): Frame {
    Frame(opcode, extras, key, value, 0, 0, 0, 0)
  }

  /** The header of a client's request, filled in byte by byte. */
  method RequestHeader(f: Frame) returns (h: array<byte>)
    requires |f.extras| < 0x100 && f == Plain(f.opcode, f.extras, f.key, f.value)
    ensures fresh(h) && h[..] == Header(REQUEST_MAGIC, f)
  {
    var keyLength, totalLength := |f.key|, |Body(f)|;
    h := new byte[HEADER_LENGTH](_ => 0);
    h[0] := REQUEST_MAGIC;
    h[1] := f.opcode;
    h[2], h[3] := keyLength / 0x100 % 0x100, keyLength % 0x100;
    h[4] := |f.extras|;
    h[8], h[9] := totalLength / 0x100_0000 % 0x100, totalLength / 0x1_0000 % 0x100;
    h[10], h[11] := totalLength / 0x100 % 0x100, totalLength % 0x100;
    PlainHeader(h[..], f);
  }

  /** What the bytes of a plain request's header must be. */
  lemma PlainHeader(h: Bytes, f: Frame)
    requires |h| == HEADER_LENGTH && |f.extras| < 0x100 && f == Plain(f.opcode, f.extras, f.key, f.value)
    requires h[0] == REQUEST_MAGIC && h[1] == f.opcode && h[4] == |f.extras| && h[5] == h[6] == h[7] == 0
    requires h[2] == |f.key| / 0x100 % 0x100 && h[3] == |f.key| % 0x100
    requires h[8] == |Body(f)| / 0x100_0000 % 0x100 && h[9] == |Body(f)| / 0x1_0000 % 0x100
    requires h[10] == |Body(f)| / 0x100 % 0x100 && h[11] == |Body(f)| % 0x100
    requires forall i :: 12 <= i < HEADER_LENGTH ==> h[i] == 0
    ensures h == Header(REQUEST_MAGIC, f)
  {
    TwoBytes(|f.key|);
    FourBytes(|Body(f)|);
    Zeros(2);
    Zeros(4);
    Zeros(8);
    assert h[2..4] == [h[2], h[3]] && h[6..8] == [0, 0] == seq(2, _ => 0);
    assert h[8..12] == [h[8], h[9], h[10], h[11]];
    assert h[12..16] == seq(4, _ => 0) && h[16..24] == seq(8, _ => 0);
    HeaderFilled(h, REQUEST_MAGIC, f);
  }

  lemma TwoBytes(n: nat)
    ensures BigEndian(n, 2) == [n / 0x100 % 0x100, n % 0x100]
  {
    assert BigEndian(n / 0x100, 1) == BigEndian(n / 0x100 / 0x100, 0) + [n / 0x100 % 0x100];
  }

  lemma FourBytes(n: nat)
    ensures BigEndian(n, 4) == [n / 0x100_0000 % 0x100, n / 0x1_0000 % 0x100, n / 0x100 % 0x100, n % 0x100]
  {
    TwoBytes(n / 0x1_0000);
    assert n / 0x100 / 0x100 == n / 0x1_0000 && n / 0x1_0000 / 0x100 == n / 0x100_0000;
    assert BigEndian(n, 4) == BigEndian(n / 0x100, 3) + [n % 0x100];
    assert BigEndian(n / 0x100, 3) == BigEndian(n / 0x1_0000, 2) + [n / 0x100 % 0x100];
  }

  lemma {:induction false} Zeros(width: nat)
    ensures BigEndian(0, width) == seq(width, _ => 0)
  {
    if width > 0 {
      Zeros(width - 1);
    }
  }

  /** Writes a SET request: eight zero bytes of extras, key and value. */
  method SendSet(writer: Writer, key: Key, value: Bytes)
    modifies writer
    ensures writer.output == old(writer.output) + Print(REQUEST_MAGIC, Plain(SET, seq(8, _ => 0), key, value))
  {
    var zeros := seq(8, _ => 0);
    var h := RequestHeader(Plain(SET, zeros, key, value));
    writer.Write(h);
    writer.WriteBytes(zeros);
    writer.WriteBytes(key);
    writer.WriteBytes(value);
  }

  method SendGet(writer: Writer, key: Key)
    modifies writer
    ensures writer.output == old(writer.output) + Print(REQUEST_MAGIC, Plain(GET, [], key, []))
  {
    var h := RequestHeader(Plain(GET, [], key, []));
    writer.Write(h);
    writer.WriteBytes(key);
  }

  /** The number at a place in a buffer, from its bytes. */
  function Number16(h: Bytes, at: nat): nat
    requires at + 2 <= |h|
  {
    h[at] as int * 0x100 + h[at + 1]
  }

  function Number32(h: Bytes, at: nat): nat
    requires at + 4 <= |h|
  {
    h[at] as int * 0x100_0000 + h[at + 1] as int * 0x1_0000 + h[at + 2] as int * 0x100 + h[at + 3]
  }

  lemma NumbersAreBigEndian(h: Bytes, at: nat)
    requires at + 4 <= |h|
    ensures Number16(h, at) == FromBigEndian(h[at..at + 2])
    ensures Number32(h, at) == FromBigEndian(h[at..at + 4])
  {
    var b := h[at..at + 4];
    assert b[..3][..2] == b[..2] == h[at..at + 2] && b[..2][..1] == b[..1] && b[..1][..0] == [];
    assert FromBigEndian(b[..1]) == h[at];
    assert FromBigEndian(b[..2]) == h[at] as int * 0x100 + h[at + 1];
    assert FromBigEndian(b[..3]) == FromBigEndian(b[..2]) * 0x100 + h[at + 2];
    assert FromBigEndian(b) == FromBigEndian(b[..3]) * 0x100 + h[at + 3];
  }

  /** Reads the header of a response: its status and the length of its body. */
  method ReadHeader(reader: Reader) returns (ok: bool, status: nat, bodyLength: nat)
    modifies reader
    ensures var s := old(reader.rest);
            if |s| < HEADER_LENGTH then !ok
            else ok && status == FromBigEndian(s[6..8]) && bodyLength == BodyLength(s) &&
                 reader.rest == s[HEADER_LENGTH..]
  {
    var h := new byte[HEADER_LENGTH];
    ok := reader.ReadFull(h, HEADER_LENGTH);
    status, bodyLength := 0, 0;
    if ok {
      ghost var s := old(reader.rest);
      assert h[..] == s[..HEADER_LENGTH];
      status := Number16(h[..], 6);
      bodyLength := Number32(h[..], 8);
      NumbersAreBigEndian(h[..], 6);
      NumbersAreBigEndian(h[..], 8);
      assert h[..][6..8] == s[6..8] && h[..][8..12] == s[8..12];
    }
  }

  /** Reads the response to a GET and passes over its body, whatever the status. */
  method ReadGetResponse(reader: Reader) returns (ok: bool, status: nat)
    modifies reader
    ensures var parsed := Parse(RESPONSE_MAGIC, old(reader.rest));
            parsed.Got? ==> ok && status == parsed.frame.status && reader.rest == parsed.rest
  {
    var bodyLength;
    ok, status, bodyLength := ReadHeader(reader);
    if ok && bodyLength > 0 {
      var trash := new byte[bodyLength];
      ok := reader.ReadFull(trash, bodyLength);
    }
  }

  /**
    Reads the response to a SET; a status other than success ends it before the body. The client then
    stays in step with the server exactly when such a response has no body.
   */
  method ReadSetResponse(reader: Reader) returns (ok: bool, status: nat)
    modifies reader
    ensures var parsed := Parse(RESPONSE_MAGIC, old(reader.rest));
            parsed.Got? ==>
              && status == parsed.frame.status && ok == (status == 0)
              && (reader.rest == parsed.rest <==> status == 0 || Body(parsed.frame) == [])
  {
    var bodyLength;
    ok, status, bodyLength := ReadHeader(reader);
    if !ok {
      return;
    }
    ghost var s := old(reader.rest);
    if Parse(RESPONSE_MAGIC, s).Got? {
      PrintParse(RESPONSE_MAGIC, s);
      assert |s| - HEADER_LENGTH == |Body(Parse(RESPONSE_MAGIC, s).frame)| + |Parse(RESPONSE_MAGIC, s).rest|;
    }
    if status != 0 {
      return false, status;
    }
    if bodyLength > 0 {
      var discard := new byte[bodyLength];
      ok := reader.ReadFull(discard, bodyLength);
    }
  }

  // ---------- The server's request loop ----------

  const SMALL: nat := 1024
  const MEDIUM: nat := 65536

  /** The requests a stream is served as: its frames up to a quit, a bad frame or the end. */
  function Served(s: Bytes): seq<Frame>
    decreases |s|
  {
    match Parse(REQUEST_MAGIC, s)
    case Got(f, rest) => PrintParse(REQUEST_MAGIC, s); if f.opcode == QUIT then [] else [f] + Served(rest)
    case _ => []
  }

  /** No request served claims extras and a key longer than its body. */
  predicate InBounds(s: Bytes)
    decreases |s|
  {
    match Parse(REQUEST_MAGIC, s)
    case Got(f, rest) => PrintParse(REQUEST_MAGIC, s); f.opcode == QUIT || InBounds(rest)
    case Overrun => false
    case _ => true
  }

  lemma ServedFirst(f: Frame, rest: Bytes, s: Bytes)
    requires Fits(f) && s == Print(REQUEST_MAGIC, f) + rest
    ensures Served(s) == if f.opcode == QUIT then [] else [f] + Served(rest)
    ensures InBounds(s) == (f.opcode == QUIT || InBounds(rest))
  {
    ParsePrint(REQUEST_MAGIC, f, rest);
  }

  lemma HeadAndTail<T>(s: seq<T>, t: seq<T>)
    requires s != []
    ensures s + t == [s[0]] + (s[1..] + t)
  {
  }

  lemma PrintAllFirst(frames: seq<Frame>, rest: Bytes)
    requires frames != []
    ensures PrintAll(REQUEST_MAGIC, frames) + rest ==
            Print(REQUEST_MAGIC, frames[0]) + (PrintAll(REQUEST_MAGIC, frames[1..]) + rest)
  {
  }

  /** Requests sent one after the other are served as they were sent. */
  lemma {:induction false} ServedAsSent(frames: seq<Frame>, rest: Bytes, s: Bytes)
    requires forall f :: f in frames ==> Fits(f) && f.opcode != QUIT
    requires s == PrintAll(REQUEST_MAGIC, frames) + rest
    ensures Served(s) == frames + Served(rest)
    ensures InBounds(s) == InBounds(rest)
  {
    if frames == [] {
      assert s == rest;
    } else {
      var tail := PrintAll(REQUEST_MAGIC, frames[1..]) + rest;
      ServedAsSent(frames[1..], rest, tail);
      PrintAllFirst(frames, rest);
      ServedFirst(frames[0], tail, s);
      HeadAndTail(frames, Served(rest));
    }
  }

  /** Body buffers kept for reuse. */
  class BodyPools {
    var small: seq<array<byte>>
    var medium: seq<array<byte>>

    ghost predicate Valid()
      reads this
    {
      (forall b :: b in small ==> b.Length == SMALL) && (forall b :: b in medium ==> b.Length == MEDIUM)
    }

    ghost function Buffers(): set<array<byte>>
      reads this
    {
      (set b | b in small) + (set b | b in medium)
    }

    constructor ()
      ensures Valid() && Buffers() == {}
    {
      small, medium := [], [];
    }

    /** A buffer for `n` bytes: a pooled one if there is one, and large ones are never pooled. */
    method Take(n: nat) returns (buf: array<byte>)
      requires Valid()
      modifies this
      ensures Valid() && Buffers() <= old(Buffers()) && n <= buf.Length
      ensures buf in old(Buffers()) || fresh(buf)
      ensures n <= SMALL ==> buf.Length == SMALL
      ensures SMALL < n <= MEDIUM ==> buf.Length == MEDIUM
    {
      if n <= SMALL {
        if small == [] {
          buf := new byte[SMALL];
        } else {
          buf, small := small[0], small[1..];
        }
      } else if n <= MEDIUM {
        if medium == [] {
          buf := new byte[MEDIUM];
        } else {
          buf, medium := medium[0], medium[1..];
        }
      } else {
        buf := new byte[n];
      }
    }

    method Give(buf: array<byte>, n: nat)
      requires Valid() && (n <= SMALL ==> buf.Length == SMALL) && (SMALL < n <= MEDIUM ==> buf.Length == MEDIUM)
      modifies this
      ensures Valid() && Buffers() <= old(Buffers()) + {buf}
    {
      if n <= SMALL {
        small := small + [buf];
      } else if n <= MEDIUM {
        medium := medium + [buf];
      }
    }
  }

  /** Reads one request through the header buffer and a pooled body buffer. */
  method ReceiveRequest(reader: Reader, header: array<byte>, pools: BodyPools) returns (request: Option<Frame>)
    requires pools.Valid() && header.Length == HEADER_LENGTH && header !in pools.Buffers()
    requires !Parse(REQUEST_MAGIC, reader.rest).Overrun?
    modifies reader, header, pools, pools.Buffers()
    ensures pools.Valid() && forall b :: b in pools.Buffers() ==> b in old(pools.Buffers()) || fresh(b)
    ensures match Parse(REQUEST_MAGIC, old(reader.rest))
            case Got(f, rest) => request == Some(f) && reader.rest == rest
            case _ => request == None
  {
    ghost var s := reader.rest;
    var ok := reader.ReadFull(header, HEADER_LENGTH);
    if !ok || header[0] != REQUEST_MAGIC {
      return None;
    }
    assert header[..] == s[..HEADER_LENGTH];
    NumbersAreBigEndian(header[..], 8);
    assert header[..][8..12] == s[8..12];
    var n := Number32(header[..], 8);
    var buf := pools.Take(n);
    ok := reader.ReadFull(buf, n);
    if ok {
      assert buf[..n] == s[HEADER_LENGTH..HEADER_LENGTH + n];
      SameSplit(s, header[..], buf[..n]);
      request := Split(header[..], buf[..n]);
    } else {
      request := None;
    }
    pools.Give(buf, n);
  }

  /** Splitting a body needs nothing of the stream but the header. */
  lemma SameSplit(s: Bytes, h: Bytes, body: Bytes)
    requires |s| >= HEADER_LENGTH && h == s[..HEADER_LENGTH]
    ensures Split(h, body) == Split(s, body)
  {
    assert h[2..4] == s[2..4] && h[6..8] == s[6..8] && h[12..16] == s[12..16] && h[16..24] == s[16..24];
  }
}
