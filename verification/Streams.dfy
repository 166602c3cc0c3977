/** Byte streams: what a buffered reader has not yet delivered, and what a buffered writer was given. */
module Streams {
  import opened Basics
  import Words

  class Reader {
    var rest: Bytes

    constructor (input: Bytes)
      ensures rest == input
    {
      rest := input;
    }

    /** Fills the first `n` places of a buffer; at the end of the stream it takes what is left and fails. */
    method ReadFull(buf: array<byte>, n: nat) returns (ok: bool)
      requires n <= buf.Length
      modifies this, buf
      ensures ok == (n <= |old(rest)|)
      ensures ok ==> buf[..n] == old(rest)[..n] && rest == old(rest)[n..]
      ensures !ok ==> rest == []
    {
      var got := if n <= |rest| then n else |rest|;
      forall i | 0 <= i < got {
        buf[i] := rest[i];
      }
      rest := rest[got..];
      ok := got == n;
    }

    /** The next line with its newline; at the end of the stream what is left is lost. */
    method ReadLine() returns (line: Option<Bytes>)
      modifies this
      ensures var n := Words.LineLength(old(rest));
              if n.None? then line == None && rest == []
              else line == Some(old(rest)[..n.value]) && rest == old(rest)[n.value..]
    {
      var n := Words.LineLength(rest);
      if n.None? {
        rest := [];
        return None;
      }
      line := Some(rest[..n.value]);
      rest := rest[n.value..];
    }

    /** The next byte, or zero at the end of the stream. */
    method ReadByte() returns (b: byte)
      modifies this
      ensures b == if old(rest) == [] then 0 else old(rest)[0]
      ensures rest == if old(rest) == [] then [] else old(rest)[1..]
    {
      if rest == [] {
        return 0;
      }
      b := rest[0];
      rest := rest[1..];
    }
  }

  class Writer {
    var output: Bytes

    constructor ()
      ensures output == []
    {
      output := [];
    }

    method Write(buf: array<byte>)
      modifies this
      ensures output == old(output) + buf[..]
    {
      output := output + buf[..];
    }

    method WriteBytes(s: Bytes)
      modifies this
      ensures output == old(output) + s
    {
      output := output + s;
    }
  }
}
