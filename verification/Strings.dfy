/** Small helpers for text built up in buffers. */
module Strings {

  lemma Reassociate<T>(a: seq<T>, b: seq<T>, c: seq<T>)
    ensures (a + b) + c == a + (b + c)
  {
  }

  /** `*d++ = c`. */
  method Put(buf: array<char>, d: nat, c: char) returns (next: nat)
    requires d < buf.Length
    modifies buf
    ensures next == d + 1 && buf[..next] == old(buf[..d]) + [c]
  {
    buf[d] := c;
    next := d + 1;
  }

  /** `*d = '\0'`. */
  method Terminate(buf: array<char>, d: nat)
    requires d < buf.Length
    modifies buf
    ensures buf[..d] == old(buf[..d]) && buf[d] == '\0'
  {
    buf[d] := '\0';
  }
}
