/** File handles as the streaming code sees them. */
module Streams {

  type byte = x: int | 0 <= x < 256

  /** `memcpy(buf + offset, src, |src|)`. */
  method CopyInto(buf: array<byte>, offset: nat, src: seq<byte>)
    requires offset + |src| <= buf.Length
    modifies buf
    ensures buf[..offset + |src|] == old(buf[..offset]) + src
    ensures buf[offset + |src|..] == old(buf[offset + |src|..])
  {
    forall i | 0 <= i < |src| { buf[offset + i] := src[i]; }
  }

  /** A handle open for reading, with the bytes still to come. */
  class InHandle {
    var pending: seq<byte>

    constructor (contents: seq<byte>)
      ensures pending == contents
    {
      pending := contents;
    }

    /** `PerlIO_read` on a buffered handle: as many bytes as asked for, or all that are left. */
    method Read(n: nat) returns (got: seq<byte>)
      modifies this
      ensures got == if n <= |old(pending)| then old(pending)[..n] else old(pending)
      ensures old(pending) == got + pending
    {
      var k := if n <= |pending| then n else |pending|;
      got := pending[..k];
      pending := pending[k..];
    }

    /** A read that may return early with any non-empty part of what was asked for, as on
        an unbuffered pipe; it returns nothing only at the end of the stream. */
    method ReadSome(n: nat) returns (got: seq<byte>)
      requires n >= 1
      modifies this
      ensures |got| <= n && old(pending) == got + pending
      ensures got == [] <==> old(pending) == []
    {
      var k :| 0 <= k <= n && k <= |pending| && (k == 0 <==> pending == []);
      got := pending[..k];
      pending := pending[k..];
    }
  }

  /** A handle open for writing onto a device that still has room for `room` bytes. */
  class OutHandle {
    var written: seq<byte>
    var room: nat

    constructor (room: nat)
      ensures written == [] && this.room == room
    {
      written := [];
      this.room := room;
    }

    /** `PerlIO_write`: writes what fits and says how much that was. */
    method Write(bytes: seq<byte>) returns (n: nat)
      modifies this
      ensures n == if |bytes| <= old(room) then |bytes| else old(room)
      ensures written == old(written) + bytes[..n] && room == old(room) - n
    {
      n := if |bytes| <= room then |bytes| else room;
      written := written + bytes[..n];
      room := room - n;
    }
  }
}
