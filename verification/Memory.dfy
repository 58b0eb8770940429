/** What copying bytes into a buffer means. */
module Memory {
  import opened Words

  /** `src` stored at `at`; everything before and after it is as it was. */
  method Copy(buf: array<Byte>, at: nat, src: seq<Byte>)
    requires at + |src| <= buf.Length
    modifies buf
    ensures buf[at..at + |src|] == src
    ensures buf[..at] == old(buf[..at]) && buf[at + |src|..] == old(buf[at + |src|..])
  {
    forall i | 0 <= i < |src| {
      buf[at + i] := src[i];
    }
  }

  /** Append `src` to what lies before `at`, within a stretch of `room` bytes. */
  method Put(buf: array<Byte>, at: nat, src: seq<Byte>, room: nat)
    requires |src| <= room && at + room <= buf.Length
    modifies buf
    ensures buf[..at + |src|] == old(buf[..at]) + src
    ensures buf[at + room..] == old(buf[at + room..])
  {
    Copy(buf, at, src);
    assert buf[..at + |src|] == buf[..at] + buf[at..at + |src|];
    assert buf[at + room..] == buf[at + |src|..][room - |src|..];
  }
}
