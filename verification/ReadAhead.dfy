/** The block read-ahead shim: stacked on the anti-skip buffer for the decoder, and straight on the file for its tags. */
module ReadAhead {
  import opened Words
  import opened Memory
  import opened ByteSource
  import opened Backing
  import opened DiskBuf

  /** A part of the block is that part of the file. */
  lemma BlockPart(buf: seq<Byte>, file: seq<Byte>, pos: nat, len: nat, off: nat, take: nat)
    requires len <= |buf| && pos + len <= |file| && buf[..len] == file[pos..pos + len] && off + take <= len
    ensures buf[off..off + take] == file[pos + off..pos + off + take]
  {
    PrefixSlice(buf[..len], buf, off, off + take);
    SliceOfSlice(file, pos, pos + len, off, take);
  }

  /** What the shim reads from. */
  datatype Below = Raw(src: Backing) | Buffered(db: DiskBuf) {
    function Source(): Backing
    {
      match this
      case Raw(src) => src
      case Buffered(db) => db.inner
    }

    ghost function File(): seq<Byte>
    {
      Source().File()
    }

    function End(): nat
    {
      Source().End()
    }

    ghost predicate Reliable()
    {
      Source().Reliable()
    }

    ghost function Parts(): set<object>
    {
      match this
      case Raw(src) => src.Parts()
      case Buffered(db) => db.inner.Parts() + {db, db.buf}
    }

    ghost function Repr(): set<object>
    {
      match this
      case Raw(src) => src.Repr()
      case Buffered(db) => db.inner.Repr() + {db, db.buf}
    }

    ghost predicate Valid()
      reads Repr()
    {
      && |File()| <= End() < 0x8000_0000
      && match this
         case Raw(src) => src.Valid()
         case Buffered(db) => db.Valid()
    }

    lemma Clear(a: array<Byte>)
      requires Apart(a)
      ensures a !in Repr() && Parts() <= Repr()
    {
    }

    lemma Sound()
      requires Valid()
      ensures |File()| <= End() < 0x8000_0000 && (Reliable() ==> Straight())
    {
    }

    ghost predicate Straight()
      reads Repr()
    {
      Source().Straight()
    }

    function Pos(): nat
      reads Repr()
    {
      match this
      case Raw(src) => src.Pos()
      case Buffered(db) => if db.rd < 0 then 0 else db.rd
    }

    /** An error has been latched; a raw source has nowhere to latch one. */
    function Latched(): bool
      reads Repr()
    {
      match this
      case Raw(src) => false
      case Buffered(db) => db.err
    }

    /** The buffer is not the ring. */
    predicate Apart(a: array<Byte>)
    {
      Buffered? ==> a != db.buf
    }

    /** Perhaps fewer bytes than asked for. */
    method Read(dst: array<Byte>, at: nat, n: U32) returns (k: nat)
      requires Valid() && Apart(dst) && at + n <= dst.Length
      modifies Parts(), dst
      ensures Valid() && k <= n && Pos() == old(Pos()) + k && (k > 0 ==> Pos() <= |File()|)
      ensures Straight() ==> old(Straight()) && dst[..at + k] == old(dst[..at]) + Cut(File(), old(Pos()), Pos())
      ensures Reliable() ==> Straight() && (k == 0 ==> n == 0 || Pos() >= |File()|)
      ensures Reliable() && old(Pos()) <= End() ==> Latched() == old(Latched()) && Pos() <= End()
      ensures dst[..at] == old(dst[..at]) && dst[at + n..] == old(dst[at + n..])
    {
      match this
      case Raw(src) =>
        hide Backing.Valid;
        k := src.Read(dst, at, n);
        assert dst[..at + k] == dst[..at] + dst[at..at + k];
      case Buffered(db) =>
        hide Backing.Valid;
        k := db.Read(dst, at, n);
    }

    /** A raw source refuses to go past the end. */
    method Seek(offset: int, origin: Origin) returns (ok: bool)
      requires Valid() && Aim(offset, origin, Pos(), End()) < 0x8000_0000
      modifies Parts()
      ensures Valid() && Straight() == old(Straight()) && Latched() == old(Latched())
      ensures var target := Aim(offset, origin, old(Pos()), End());
        && (ok ==> Pos() == target && (origin.FromEnd? ==> target <= End())) && (!ok ==> Pos() == old(Pos()))
        && (0 <= target <= End() ==> ok)
    {
      match this
      case Raw(src) =>
        ok := src.Seek(offset, origin);
      case Buffered(db) =>
        hide Backing.Valid;
        ok := db.Seek(offset, origin);
    }

    method Tell() returns (at: int)
      requires Valid()
      ensures at == Pos()
    {
      match this
      case Raw(src) =>
        at := src.Tell();
      case Buffered(db) =>
        at := db.Tell();
    }

    /** The player pumps the anti-skip buffer behind the shim's back. */
    method Pump(chunk: nat)
      requires Valid()
      modifies Parts()
      ensures Valid() && Pos() == old(Pos()) && (Straight() ==> old(Straight())) && (Reliable() ==> Straight())
      ensures Reliable() && old(Pos()) <= End() ==> Latched() == old(Latched())
    {
      match this
      case Raw(src) =>
      case Buffered(db) =>
        hide Backing.Valid;
        var got := db.Pump(chunk);
    }
  }

  /** A shim is no part of what it reads from. */
  lemma OtherThan(b: Below, ra: ReadAhead)
    ensures ra !in b.Repr()
  {
  }

  class ReadAhead {
    const inner: Below
    const buf: array<Byte>
    const cap: nat
    var bufPos: int
    var bufLen: nat
    var cursor: int
    var innerPos: int

    ghost predicate Valid()
      reads this, inner.Repr(), buf
    {
      && inner.Valid() && this !in inner.Repr() && inner.Apart(buf) && buf.Length == cap < TWO32
      && |inner.File()| <= inner.End() < 0x8000_0000
      && bufLen <= cap && 0 <= cursor < 0x8000_0000
      && (bufLen > 0 ==> 0 <= bufPos && bufPos + bufLen <= |inner.File()|
                         && (inner.Straight() ==> buf[..bufLen] == inner.File()[bufPos..bufPos + bufLen]))
      && (innerPos == -1 || innerPos == inner.Pos())
      && (inner.Reliable() ==> inner.Straight())
    }

    constructor (source: Below, block: array<Byte>)
      requires source.Valid() && source.Apart(block) && block.Length < TWO32
      ensures Valid() && inner == source && buf == block && cursor == 0
    {
      hide Below.Valid, Below.Straight;
      source.Sound();
      inner, buf, cap := source, block, block.Length;
      bufPos, bufLen, cursor, innerPos := -1, 0, 0, -1;
      new;
      OtherThan(source, this);
    }

    predicate InWindow(pos: int)
      reads this
    {
      bufLen > 0 && bufPos <= pos < bufPos + bufLen
    }

    method InnerSeekTo(at: nat) returns (ok: bool)
      requires Valid() && at < 0x8000_0000
      modifies `innerPos, inner.Parts()
      ensures Valid() && inner.Straight() == old(inner.Straight()) && inner.Latched() == old(inner.Latched())
      ensures if ok then innerPos == at == inner.Pos() else at > inner.End() && inner.Pos() == old(inner.Pos())
    {
      hide Below.Valid;
      if innerPos == at {
        return true;
      }
      ok := inner.Seek(at, FromStart);
      if ok {
        innerPos := at;
      }
    }

    /** Fill the block from the cursor on. */
    method Refill() returns (n: nat)
      requires Valid()
      modifies this, buf, inner.Parts()
      ensures Valid() && cursor == old(cursor) && (inner.Straight() ==> old(inner.Straight()))
      ensures n > 0 ==> InWindow(cursor)
      ensures inner.Reliable() && n == 0 ==> cursor >= |inner.File()| || cap == 0
      ensures inner.Reliable() && cursor <= inner.End() ==> inner.Latched() == old(inner.Latched()) && inner.Pos() <= inner.End()
    {
      hide Below.Valid, Below.Repr, Below.Parts, Below.Straight, Below.Reliable, Below.Latched, Below.Pos;
      inner.Clear(buf);
      var there := InnerSeekTo(cursor);
      if !there {
        bufLen, bufPos := 0, -1;
        return 0;
      }
      n := inner.Read(buf, 0, cap);
      bufPos := cursor;
      bufLen := n;
      innerPos := innerPos + n;
    }

    /** Copy out of the block at the cursor. */
    method Serve(dst: array<Byte>, at: nat, want: nat) returns (take: nat)
      requires Valid() && InWindow(cursor) && dst != buf && inner.Apart(dst) && 0 < want && at + want <= dst.Length
      modifies `cursor, dst
      ensures Valid() && 0 < take <= want && cursor == old(cursor) + take <= |inner.File()|
      ensures dst[..at] == old(dst[..at]) && dst[at + want..] == old(dst[at + want..])
      ensures inner.Straight() ==> dst[..at + take] == old(dst[..at]) + Cut(inner.File(), old(cursor), cursor)
    {
      hide Below.Valid;
      var off := cursor - bufPos;
      take := Min(want, bufLen - off);
      if inner.Straight() {
        assert buf[..][..bufLen] == buf[..bufLen] && buf[..][off..off + take] == buf[off..off + take];
        BlockPart(buf[..], inner.File(), bufPos, bufLen, off, take);
      }
      Put(dst, at, buf[off..off + take], want);
      cursor := cursor + take;
    }

    /** The bulk path: read past the block, straight into the caller's buffer. */
    method Bypass(dst: array<Byte>, at: nat, want: U32) returns (n: nat)
      requires Valid() && dst != buf && inner.Apart(dst) && at + want <= dst.Length
      modifies this, inner.Parts(), dst
      ensures Valid() && n <= want && cursor == old(cursor) + n && (n > 0 ==> cursor <= |inner.File()|)
      ensures inner.Straight() ==> old(inner.Straight())
      ensures dst[..at] == old(dst[..at]) && dst[at + want..] == old(dst[at + want..])
      ensures inner.Straight() ==> dst[..at + n] == old(dst[..at]) + Cut(inner.File(), old(cursor), cursor)
      ensures inner.Reliable() && n == 0 ==> want == 0 || cursor >= |inner.File()|
      ensures inner.Reliable() && old(cursor) <= inner.End() ==> inner.Latched() == old(inner.Latched()) && inner.Pos() <= inner.End()
    {
      hide Below.Valid, Below.Repr, Below.Parts;
      inner.Clear(buf);
      inner.Clear(dst);
      n := 0;
      var there := InnerSeekTo(cursor);
      if there {
        n := inner.Read(dst, at, want);
        innerPos := innerPos + n;
        cursor := cursor + n;
      }
    }

    /** One pass of the read loop: out of the block, in bulk when much is wanted, or through a fresh block. */
    method Turn(dst: array<Byte>, at: nat, want: U32, ghost pre: seq<Byte>, ghost c0: int) returns (take: nat, more: bool)
      requires Valid() && dst != buf && inner.Apart(dst) && 0 < want && at + want <= dst.Length
      requires inner.Straight() ==> dst[..at] == pre + Cut(inner.File(), c0, cursor)
      requires c0 == cursor || 0 <= c0 <= cursor <= |inner.File()|
      modifies this, buf, inner.Parts(), dst
      ensures Valid() && take <= want && cursor == old(cursor) + take && (take > 0 ==> cursor <= |inner.File()|)
      ensures more ==> take > 0 || (!old(InWindow(cursor)) && InWindow(cursor))
      ensures inner.Straight() ==> old(inner.Straight())
      ensures dst[..at] == old(dst[..at]) && dst[at + want..] == old(dst[at + want..])
      ensures inner.Straight() ==> dst[..at + take] == pre + Cut(inner.File(), c0, cursor)
      ensures inner.Reliable() && !more ==> take == 0 && cursor >= |inner.File()|
      ensures inner.Reliable() && old(cursor) <= inner.End() && old(inner.Pos()) <= inner.End() ==> inner.Latched() == old(inner.Latched()) && inner.Pos() <= inner.End()
    {
      hide Below.Valid;
      take, more := 0, true;
      if InWindow(cursor) {
        take := Serve(dst, at, want);
      } else if want >= cap {
        take := Bypass(dst, at, want);
        more := take > 0;
      } else {
        var n := Refill();
        more := n > 0;
      }
      CutAppend(pre, inner.File(), c0, old(cursor), cursor);
    }

    method Read(dst: array<Byte>, at: nat, bytes: U32) returns (done: nat)
      requires Valid() && dst != buf && inner.Apart(dst) && at + bytes <= dst.Length
      modifies this, buf, inner.Parts(), dst
      ensures Valid() && done <= bytes && cursor == old(cursor) + done && (inner.Straight() ==> old(inner.Straight()))
      ensures dst[..at] == old(dst[..at]) && dst[at + bytes..] == old(dst[at + bytes..])
      ensures inner.Straight() ==> dst[..at + done] == old(dst[..at]) + Cut(inner.File(), old(cursor), cursor)
      ensures inner.Reliable() && done < bytes ==> cursor >= |inner.File()|
      ensures done > 0 ==> cursor <= |inner.File()|
      ensures inner.Reliable() && old(cursor) <= inner.End() && old(inner.Pos()) <= inner.End() ==> inner.Latched() == old(inner.Latched()) && inner.Pos() <= inner.End()
    {
      hide Below.Valid;
      done := 0;
      var more := true;
      ghost var file, c0, pre := inner.File(), cursor, dst[..at];
      while done < bytes && more
        invariant Valid() && done <= bytes && cursor == c0 + done && (inner.Straight() ==> old(inner.Straight()))
        invariant dst[..at] == pre && dst[at + bytes..] == old(dst[at + bytes..])
        invariant inner.Straight() ==> dst[..at + done] == pre + Cut(file, c0, cursor)
        invariant inner.Reliable() && c0 <= inner.End() && old(inner.Pos()) <= inner.End() ==>
          inner.Latched() == old(inner.Latched()) && inner.Pos() <= inner.End()
        invariant inner.Reliable() && !more ==> cursor >= |file|
        invariant done > 0 ==> cursor <= |file|
        decreases more, bytes - done, if InWindow(cursor) then 0 else 1
      {
        var take;
        take, more := Turn(dst, at + done, bytes - done, pre, c0);
        done := done + take;
      }
    }

    /** From the end: only what lies beneath knows where that is. */
    method FindEnd(offset: int) returns (ok: bool, target: int)
      requires Valid() && inner.End() + offset < 0x8000_0000
      modifies `innerPos, inner.Parts()
      ensures Valid() && inner.Latched() == old(inner.Latched()) && inner.Straight() == old(inner.Straight())
      ensures ok == (0 <= inner.End() + offset && offset <= 0) && (ok ==> target == inner.End() + offset)
      ensures inner.Pos() == if ok then target else old(inner.Pos())
    {
      hide Below.Valid;
      target := -1;
      ok := inner.Seek(offset, FromEnd);
      if ok {
        target := inner.Tell();
        innerPos := target;
      }
    }

    method Seek(offset: int, origin: Origin) returns (ok: bool)
      requires Valid() && Aim(offset, origin, cursor, inner.End()) < 0x8000_0000
      modifies this, inner.Parts()
      ensures Valid() && inner.Latched() == old(inner.Latched()) && inner.Straight() == old(inner.Straight())
      ensures ok == (0 <= Aim(offset, origin, old(cursor), inner.End()) && (origin.FromEnd? ==> offset <= 0))
      ensures cursor == if ok then Aim(offset, origin, old(cursor), inner.End()) else old(cursor)
      ensures old(inner.Pos()) <= inner.End() ==> inner.Pos() <= inner.End()
    {
      hide Below.Valid;
      var target;
      if origin.FromStart? {
        target := offset;
      } else if origin.FromHere? {
        target := cursor + offset;
      } else {
        ok, target := FindEnd(offset);
        if !ok {
          return false;
        }
      }
      if target < 0 {
        return false;
      }
      cursor := target;
      ok := true;
    }

    method Tell() returns (at: int)
      ensures at == cursor
    {
      at := cursor;
    }

    /** The shim does not notice when what it reads from is pumped. */
    method Pump(chunk: nat)
      requires Valid()
      modifies inner.Parts()
      ensures Valid() && (inner.Straight() ==> old(inner.Straight()))
      ensures inner.Reliable() && old(inner.Pos()) <= inner.End() ==> inner.Latched() == old(inner.Latched()) && inner.Pos() <= inner.End()
    {
      hide Below.Valid;
      inner.Pump(chunk);
    }
  }
}
