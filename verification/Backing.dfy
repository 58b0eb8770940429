/** What lies under the buffers: any source at all, or the player's own file source. */
module Backing {
  import opened Words
  import opened ByteSource
  import opened Retries
  import opened FileSource

  method ReadAny(src: Source, dst: array<Byte>, at: nat, n: nat) returns (k: nat)
    requires src.Valid() && at + n <= dst.Length
    modifies src, dst
    ensures src.Valid() && k <= n && src.pos == old(src.pos) + k && (k > 0 ==> src.pos <= |src.file| && !src.failed)
    ensures src.reliable ==> !src.failed && (k == 0 ==> n == 0 || src.pos >= |src.file|)
    ensures dst[at..at + k] == Cut(src.file, old(src.pos), old(src.pos) + k)
    ensures dst[..at] == old(dst[..at]) && dst[at + n..] == old(dst[at + n..])
  {
    k := src.Read(dst, at, n);
  }

  method ReadTrack(src: FileSource, dst: array<Byte>, at: nat, n: U32) returns (k: nat)
    requires src.Valid() && at + n <= dst.Length
    modifies src, src.st, src.st.fs, dst
    ensures src.Valid() && k <= n && src.pos == old(src.pos) + k && (k > 0 ==> src.pos <= |src.file| && !src.err)
    ensures src.reliable ==> !src.err && src.straight && (k == 0 ==> n == 0 || src.pos >= |src.file|)
    ensures src.straight ==> old(src.straight) && dst[at..at + k] == Cut(src.file, old(src.pos), old(src.pos) + k)
    ensures dst[..at] == old(dst[..at]) && dst[at + n..] == old(dst[at + n..])
  {
    hide FileSource.OnFile, Possible, AfterRead, Synced, Got, LiesAt;
    ghost var fault, c;
    k, fault, c := src.Read(dst, at, n);
  }

  datatype Backing = Any(src: Source) | Disk(fat: FileSource) {
    ghost function File(): seq<Byte>
    {
      match this
      case Any(s) => s.file
      case Disk(f) => f.file
    }

    /** Where a seek from the end starts: the declared size, which the file may fall short of. */
    function End(): nat
    {
      match this
      case Any(s) => |s.file|
      case Disk(f) => f.size
    }

    ghost predicate Reliable()
    {
      match this
      case Any(s) => s.reliable
      case Disk(f) => f.reliable
    }

    /** What an operation may change. */
    ghost function Parts(): set<object>
    {
      match this
      case Any(s) => {s}
      case Disk(f) => {f, f.st, f.st.fs}
    }

    /** All there is to it. */
    ghost function Repr(): set<object>
    {
      match this
      case Any(s) => {s}
      case Disk(f) => {f, f.st, f.st.fs, f.st.fs.dev}
    }

    ghost predicate Valid()
      reads Repr()
    {
      && |File()| <= End() < 0x8000_0000
      && match this
         case Any(s) => s.Valid() && !s.loose
         case Disk(f) => f.Valid()
    }

    function Pos(): nat
      reads Repr()
    {
      match this
      case Any(s) => s.pos
      case Disk(f) => f.pos
    }

    lemma Within()
      requires Valid()
      ensures Pos() <= End()
    {
    }

    /** The error flag that the probe reports. */
    function Err(): bool
      reads Repr()
    {
      match this
      case Any(s) => s.failed
      case Disk(f) => f.err
    }

    /** What is delivered is from where the source was moved to. */
    ghost predicate Straight()
      reads Repr()
    {
      match this
      case Any(s) => true
      case Disk(f) => f.straight
    }

    /** Some bytes, unless there are none or the source fails. */
    method Read(dst: array<Byte>, at: nat, n: U32) returns (k: nat)
      requires Valid() && at + n <= dst.Length
      modifies Parts(), dst
      ensures Valid() && k <= n && Pos() == old(Pos()) + k
      ensures k > 0 ==> Pos() <= |File()| && !Err()
      ensures Reliable() ==> !Err() && Straight() && (k == 0 ==> n == 0 || Pos() >= |File()|)
      ensures Straight() ==> old(Straight()) && dst[at..at + k] == Cut(File(), old(Pos()), old(Pos()) + k)
      ensures dst[..at] == old(dst[..at]) && dst[at + n..] == old(dst[at + n..])
    {
      hide Owes, Cut, FileSource.Valid, Source.Valid;
      match this
      case Any(s) =>
        k := ReadAny(s, dst, at, n);
      case Disk(f) =>
        k := ReadTrack(f, dst, at, n);
    }

    /** Repositions only within the declared size. */
    method Seek(offset: int, origin: Origin) returns (ok: bool)
      requires Valid() && Aim(offset, origin, Pos(), End()) < 0x8000_0000
      modifies Parts()
      ensures Valid() && Err() == old(Err()) && Straight() == old(Straight())
      ensures ok == (0 <= Aim(offset, origin, old(Pos()), End()) <= End())
      ensures Pos() == if ok then Aim(offset, origin, old(Pos()), End()) else old(Pos())
    {
      match this
      case Any(s) =>
        ok := s.Seek(offset, origin);
      case Disk(f) =>
        ok := f.Seek(offset, origin);
    }

    method Tell() returns (at: int)
      ensures at == Pos()
    {
      at := Pos();
    }
  }
}
