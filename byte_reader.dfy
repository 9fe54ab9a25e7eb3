/** The byte source both decoders read from: a bufio.Reader over a finite input. Its four
    operations are the ones the decoders call (Peek(1), ReadByte, ReadBytes, Read); the buffer
    management inside bufio is not modelled, only what each call returns and consumes. */
module ByteReader {
  import opened Wrappers
  import opened Ascii

  class Reader {
    /** The bytes the underlying io.Reader will still deliver: the input not yet consumed. */
    var rest: seq<byte>

    constructor (input: seq<byte>)
      ensures rest == input
    {
      rest := input;
    }

    /** Peek(1): the next byte without consuming it; `None` is io.EOF. */
    method Peek() returns (b: Option<byte>)
      ensures b == if |rest| > 0 then Some(rest[0]) else None
    {
      if |rest| > 0 {
        b := Some(rest[0]);
      } else {
        b := None;
      }
    }

    /** ReadByte: the next byte, consumed; `None` is io.EOF. */
    method ReadByte() returns (b: Option<byte>)
      modifies this
      ensures |old(rest)| > 0 ==> b == Some(old(rest)[0]) && rest == old(rest)[1..]
      ensures |old(rest)| == 0 ==> b == None && rest == old(rest)
    {
      if |rest| > 0 {
        b := Some(rest[0]);
        rest := rest[1..];
      } else {
        b := None;
      }
    }

    /** ReadBytes(delim): everything up to and including the first `delim`. Without one it
        consumes the rest of the input and fails with io.EOF. */
    method ReadBytes(delim: byte) returns (r: Option<seq<byte>>)
      modifies this
      ensures match IndexOf(old(rest), delim)
        case Some(j) => r == Some(old(rest)[..j + 1]) && rest == old(rest)[j + 1..]
        case None => r == None && rest == []
    {
      match IndexOf(rest, delim)
      case Some(j) =>
        r := Some(rest[..j + 1]);
        rest := rest[j + 1..];
      case None =>
        r := None;
        rest := [];
    }

    /** Read(buf): a short read. It delivers at least one byte and at most as many as `buf`
        holds or the input still has, as many as the underlying reader happens to have
        ready; which count is left open. At the end of the input it fails with io.EOF. Both
        decoders only ever pass a non-empty buffer. */
    method Read(buf: array<byte>) returns (n: nat, ok: bool)
      requires buf.Length > 0
      modifies this, buf
      ensures ok <==> |old(rest)| > 0
      ensures ok ==> 1 <= n
      ensures n <= buf.Length && n <= |old(rest)|
      ensures !ok ==> n == 0
      ensures buf[..n] == old(rest)[..n] && rest == old(rest)[n..]
    {
      if |rest| == 0 {
        return 0, false;
      }
      var most := if buf.Length < |rest| then buf.Length else |rest|;
      n :| 1 <= n <= most;
      forall i | 0 <= i < n {
        buf[i] := rest[i];
      }
      rest := rest[n..];
      ok := true;
    }
  }
}
