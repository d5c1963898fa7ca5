/** Reading and writing files as src/Execution.cpp does, against a flat file. */
module FileSystem {
  import opened Lists

  type Byte = bv8

  datatype Config = Config(blockSize: nat, maxFileSize: nat, delalloc: bool)

  datatype Flags = Flags(read: bool, write: bool, append: bool)

  datatype Chunk = Chunk(start: nat, bytes: nat)

  // ----- flat files

  function Zeros(n: nat): (r: seq<Byte>)
    ensures |r| == n && forall i :: 0 <= i < n ==> r[i] == 0
  {
    if n == 0 then [] else Zeros(n - 1) + [0]
  }

  /** Writing bytes at an offset of a flat file: a gap past its end reads as zeros, and
      what lies behind the bytes stays. */
  function FlatWrite(file: seq<Byte>, offset: nat, bytes: seq<Byte>): seq<Byte> {
    var padded := if offset > |file| then file + Zeros(offset - |file|) else file;
    padded[..offset] + bytes + if offset + |bytes| < |padded| then padded[offset + |bytes|..] else []
  }

  function FlatRead(file: seq<Byte>, offset: nat, count: nat): seq<Byte> {
    if offset >= |file| then []
    else if offset + count <= |file| then file[offset..offset + count]
    else file[offset..]
  }

  /** What has been written can be read back. */
  lemma ReadAfterWrite(file: seq<Byte>, offset: nat, bytes: seq<Byte>)
    requires bytes != []
    ensures FlatRead(FlatWrite(file, offset, bytes), offset, |bytes|) == bytes
    ensures |FlatWrite(file, offset, bytes)| == if |file| > offset + |bytes| then |file| else offset + |bytes|
  {
  }

  /** A write changes exactly the bytes it covers: the others stay, and a gap becomes zeros. */
  lemma FlatWriteAt(file: seq<Byte>, offset: nat, bytes: seq<Byte>)
    requires bytes != []
    ensures |FlatWrite(file, offset, bytes)| == Larger(|file|, offset + |bytes|)
    ensures forall i :: 0 <= i < |FlatWrite(file, offset, bytes)| ==>
      FlatWrite(file, offset, bytes)[i]
      == if offset <= i < offset + |bytes| then bytes[i - offset] else if i < |file| then file[i] else 0
  {
  }

  /** A read yields the bytes from the offset on, as many as asked for or as there are. */
  lemma FlatReadAt(file: seq<Byte>, offset: nat, count: nat)
    ensures |FlatRead(file, offset, count)|
      == if offset >= |file| then 0 else if count <= |file| - offset then count else |file| - offset
    ensures forall i :: 0 <= i < |FlatRead(file, offset, count)| ==>
      FlatRead(file, offset, count)[i] == file[offset + i]
  {
  }

  lemma ReadNothing(file: seq<Byte>, offset: nat)
    ensures FlatRead(file, offset, 0) == []
  {
  }

  // ----- blocks

  /** The chunk lies inside one block. */
  predicate InOneBlock(c: Chunk, blockSize: nat)
    requires blockSize > 0
  {
    c.bytes > 0 && c.start / blockSize == (c.start + c.bytes - 1) / blockSize
  }

  /** The chunks follow each other and cover the range. */
  ghost predicate Tile(chunks: seq<Chunk>, start: nat, end: nat) {
    if chunks == [] then start == end
    else
      var last := chunks[|chunks| - 1];
      last.start + last.bytes == end && Tile(chunks[..|chunks| - 1], start, last.start)
  }

  lemma SameBlock(start: nat, bytes: nat, blockSize: nat)
    requires blockSize > 0 && bytes > 0 && start % blockSize + bytes <= blockSize
    ensures InOneBlock(Chunk(start, bytes), blockSize)
  {
    var q, r := start / blockSize, start % blockSize;
    assert start == q * blockSize + r;
    Quotient(q, r + bytes - 1, blockSize);
    Quotient(q, r, blockSize);
  }

  lemma Quotient(q: nat, r: nat, d: nat)
    requires r < d
    ensures (q * d + r) / d == q
  {
    var x := (q * d + r) / d;
    assert q * d + r == x * d + (q * d + r) % d;
    if x < q { Less(x, q, d); }
    if x > q { Less(q, x, d); }
  }

  lemma Less(x: nat, q: nat, d: nat)
    requires x < q
    ensures x * d + d <= q * d
  {
    assert q * d - x * d == (q - x) * d;
    if q - x > 1 { Positive(q - x - 1, d); }
  }

  lemma Positive(k: nat, d: nat)
    ensures k * d >= 0 && (k + 1) * d == k * d + d
  {
  }

  // ----- the end of the last block

  /** shouldUpdateInodeDisksizeFS: a write that touches the rest of the block in which the
      file ends extends the size on disk, to the end of the write or of the block; -1 means
      that it does not. */
  function DiskSizeFor(c: Config, size: nat, offset: nat, count: nat): (dSize: int)
    requires c.blockSize > 0
    ensures count > 0 ==>
      var blockEnd := size + (c.blockSize - size % c.blockSize);
      if size % c.blockSize > 0 && offset < blockEnd && size < offset + count
      then dSize <= blockEnd && dSize <= offset + count && (dSize == blockEnd || dSize == offset + count)
        && size < dSize
      else dSize == -1
  {
    var bi := size % c.blockSize;
    var be := size + (c.blockSize - bi);
    var shouldUpdate :=
      && (|| (offset <= size && size < offset + count)
          || (offset < be && be <= offset + count)
          || (size <= offset && offset + count <= be))
      && bi > 0;
    if shouldUpdate then (if be < offset + count then be else offset + count) else -1
  }

  /** How much to write at an offset, so that the rest of the count is aligned. */
  method BytesInBlock(blockSize: nat, inodeOffset: nat, dataCount: nat) returns (bytes: nat)
    requires blockSize > 0 && dataCount > 0
    ensures 0 < bytes <= dataCount && InOneBlock(Chunk(inodeOffset, bytes), blockSize)
    ensures bytes == dataCount || (inodeOffset + bytes) % blockSize == 0
  {
    bytes := if blockSize < dataCount then blockSize else dataCount;
    var blockIndex := inodeOffset % blockSize;
    var blockRem := blockSize - blockIndex;
    if blockIndex != 0 && bytes > blockRem { bytes := blockRem; }
    SameBlock(inodeOffset, bytes, blockSize);
    if bytes < dataCount { BlockEnd(inodeOffset, blockSize); }
  }

  /** The rest of a block ends with the block. */
  lemma BlockEnd(start: nat, blockSize: nat)
    requires blockSize > 0
    ensures (start + (blockSize - start % blockSize)) % blockSize == 0
    ensures start % blockSize == 0 ==> (start + blockSize) % blockSize == 0
  {
    var q := start / blockSize;
    assert start == q * blockSize + start % blockSize;
    assert start + (blockSize - start % blockSize) == (q + 1) * blockSize + 0 by { Positive(q, blockSize); }
    Quotient(q + 1, 0, blockSize);
  }

  /** Every chunk but the last ends with a block. */
  ghost predicate Aligned(chunks: seq<Chunk>, blockSize: nat)
    requires blockSize > 0
  {
    forall i {:trigger chunks[i]} :: 0 <= i < |chunks| - 1 ==> (chunks[i].start + chunks[i].bytes) % blockSize == 0
  }

  lemma NothingTiled(start: nat)
    ensures Tile([], start, start)
  {
  }

  lemma TileStep(chunks: seq<Chunk>, start: nat, end: nat, bytes: nat)
    requires Tile(chunks, start, end)
    ensures Tile(chunks + [Chunk(end, bytes)], start, end + bytes)
  {
    assert (chunks + [Chunk(end, bytes)])[..|chunks|] == chunks;
  }

  class Inode {
    const data: array<Byte>
    var isize: nat
    var idisksize: nat

    ghost predicate Valid()
      reads this
    {
      isize <= data.Length
    }

    /** What the file contains. */
    ghost function Content(): seq<Byte>
      requires Valid()
      reads this, data
    {
      data[..isize]
    }

    constructor (maxFileSize: nat)
      ensures Valid() && fresh(data) && data.Length == maxFileSize && Content() == []
    {
      data := new Byte[maxFileSize];
      isize, idisksize := 0, 0;
    }

    method WriteDataToDisk(buf: seq<Byte>, bufOffset: nat, inodeOffset: nat, count: nat)
      requires bufOffset + count <= |buf| && inodeOffset + count <= data.Length
      modifies data
      ensures data[..] == old(data[..inodeOffset]) + buf[bufOffset..bufOffset + count]
        + old(data[inodeOffset + count..])
    {
      for i := 0 to count
        invariant data[..inodeOffset] == old(data[..inodeOffset])
        invariant data[inodeOffset..inodeOffset + i] == buf[bufOffset..bufOffset + i]
        invariant data[inodeOffset + i..] == old(data[inodeOffset + i..])
      {
        data[inodeOffset + i] := buf[bufOffset + i];
        assert data[inodeOffset..inodeOffset + i + 1] == data[inodeOffset..inodeOffset + i] + [data[inodeOffset + i]];
        assert buf[bufOffset..bufOffset + i + 1] == buf[bufOffset..bufOffset + i] + [buf[bufOffset + i]];
      }
      assert data[..] == data[..inodeOffset] + data[inodeOffset..inodeOffset + count] + data[inodeOffset + count..];
    }

    method ReadDataFromDisk(inodeOffset: nat, count: nat) returns (buf: seq<Byte>)
      requires inodeOffset + count <= data.Length
      ensures buf == data[inodeOffset..inodeOffset + count]
    {
      buf := [];
      for i := 0 to count
        invariant buf == data[inodeOffset..inodeOffset + i]
      {
        buf := buf + [data[inodeOffset + i]];
      }
    }

    method ZeroDskRange(start: nat, end: nat)
      requires end <= data.Length
      modifies data
      ensures start < end ==> data[..] == old(data[..start]) + Zeros(end - start) + old(data[end..])
      ensures start >= end ==> data[..] == old(data[..])
    {
      var i := start;
      while i < end
        invariant start <= i && (start < end ==> i <= end)
        invariant start >= end ==> data[..] == old(data[..])
        invariant start < end ==> data[..] == old(data[..start]) + Zeros(i - start) + old(data[i..])
      {
        data[i] := 0;
        i := i + 1;
      }
    }

    /** Writes the first count bytes of buf at wOffset, block by block. The file is then what
        a flat file would be. */
    method ExecuteBufferedWrite(c: Config, buf: seq<Byte>, wOffset: nat, count: nat)
      returns (ret: nat, chunks: seq<Chunk>)
      requires Valid() && c.blockSize > 0
      requires 0 < count <= |buf| && wOffset + count <= data.Length
      modifies this, data
      ensures Valid() && ret == count
      ensures Content() == FlatWrite(old(Content()), wOffset, buf[..count])
      ensures |Content()| == Larger(old(|Content()|), wOffset + count)
      ensures forall i :: 0 <= i < |Content()| ==>
        Content()[i]
        == if wOffset <= i < wOffset + count then buf[i - wOffset] else if i < old(isize) then old(Content())[i] else 0
      ensures Tile(chunks, wOffset, wOffset + count) && forall k <- chunks :: InOneBlock(k, c.blockSize)
      ensures Aligned(chunks, c.blockSize)
      ensures idisksize == if isize == old(isize) then old(idisksize) else isize
    {
      hide Written, InOneBlock, Tile, FlatWrite, DiskSizeFor, Zeros, Aligned;
      ghost var file := Content();
      var dSize := -1;
      if c.delalloc {
        dSize := DiskSizeFor(c, isize, wOffset, count);
        if dSize >= 0 {
          ZeroDskRange(isize, dSize);
          idisksize := dSize;
        }
      }
      assert data[..isize] == file;
      if wOffset > isize { ZeroDskRange(isize, wOffset); }
      ghost var padded := if wOffset > isize then file + Zeros(wOffset - isize) else file;
      StartsWritten(data[..], file, padded, wOffset, buf[..count]);
      chunks := WriteBlocks(c, padded, buf[..count], wOffset);
      WrittenIsFlat(file, padded, wOffset, buf[..count], data[..], data[..isize]);
      FlatWriteAt(file, wOffset, buf[..count]);
      ret := count;
    }

    /** How much of the count is written, and where; a count that is not positive is returned
        as it is, and an offset beyond the largest file is an error. */
    method ExecuteWriteChecks(c: Config, flags: Flags, offset: nat, count: int) returns (wCount: int, wOffset: nat)
      ensures count <= 0 ==> wCount == count
      ensures wOffset == if count > 0 && flags.append then isize else offset
      ensures count > 0 && wOffset >= c.maxFileSize ==> wCount == -1
      ensures count > 0 && wOffset < c.maxFileSize ==>
        0 < wCount <= count && wOffset + wCount <= c.maxFileSize
          && (wCount == count || wOffset + wCount == c.maxFileSize)
    {
      wOffset := offset;
      if count <= 0 { return count, wOffset; }
      if flags.append { wOffset := isize; }
      if wOffset >= c.maxFileSize { return -1, wOffset; }
      wCount := if count < c.maxFileSize - wOffset then count else c.maxFileSize - wOffset;
    }

    /** Writes as much as fits, at the end if the file is opened for appending. A write that
        fails its checks writes nothing and returns 0; without the inode's lock, the result
        is 42, and the call is repeated later. */
    method ExecuteWrite(c: Config, flags: Flags, locked: bool, buf: seq<Byte>, offset: nat, count: int)
      returns (ret: int)
      requires Valid() && c.blockSize > 0 && c.maxFileSize == data.Length && count <= |buf|
      modifies this, data
      ensures Valid()
      ensures if flags.write then ret >= 0 else ret == -1
      ensures flags.write && !locked ==> ret == 42
      ensures ret <= 0 || !locked ==> Content() == old(Content()) && isize == old(isize) && data[..] == old(data[..])
      ensures ret > 0 && locked ==> var at := if flags.append then old(isize) else offset;
        && ret <= count && at + ret <= c.maxFileSize && (ret == count || at + ret == c.maxFileSize)
        && Content() == FlatWrite(old(Content()), at, buf[..ret])
      ensures flags.write && locked ==>
        (ret > 0 <==> count > 0 && (if flags.append then old(isize) else offset) < c.maxFileSize)
    {
      hide FlatWrite;
      if !flags.write { return -1; }
      if !locked { return 42; }
      ret := 0;
      var wCount, wOffset := ExecuteWriteChecks(c, flags, offset, count);
      if wCount > 0 {
        var chunks;
        ret, chunks := ExecuteBufferedWrite(c, buf, wOffset, wCount);
      }
    }

    /** Reads what is there of the requested bytes. */
    method ExecuteRead(flags: Flags, offset: nat, count: int) returns (nr: int, buf: seq<Byte>)
      requires Valid() && (flags.read && offset < isize ==> count >= 0)
      ensures !flags.read ==> nr == -1 && buf == []
      ensures flags.read ==> nr == |buf| && buf == FlatRead(Content(), offset, if count >= 0 then count else 0)
      ensures flags.read && offset >= isize ==> buf == []
      ensures flags.read && offset < isize ==>
        buf == Content()[offset..if count <= isize - offset then offset + count else isize]
    {
      if !flags.read { return -1, []; }
      if offset >= isize { return 0, []; }
      nr := isize - offset;
      nr := if nr >= count then count else nr;
      buf := ReadDataFromDisk(offset, nr);
    }

    /** A read that follows a write returns the same bytes. */
    method WriteThenRead(c: Config, flags: Flags, buf: seq<Byte>, offset: nat, count: nat)
      returns (ret: int, again: seq<Byte>)
      requires Valid() && c.blockSize > 0 && c.maxFileSize == data.Length && count <= |buf|
      requires flags.read && flags.write && !flags.append
      modifies this, data
      ensures 0 <= ret <= count && again == buf[..ret]
      ensures ret == if offset >= c.maxFileSize then 0 else if offset + count <= c.maxFileSize then count
        else c.maxFileSize - offset
    {
      hide FlatWrite, FlatRead;
      ret := ExecuteWrite(c, flags, true, buf, offset, count);
      var nr;
      nr, again := ExecuteRead(flags, offset, if ret > 0 then ret else 0);
      if ret > 0 { ReadAfterWrite(old(Content()), offset, buf[..ret]); } else { ReadNothing(Content(), offset); }
    }

    /** The loop over blocks. */
    method WriteBlocks(c: Config, ghost padded: seq<Byte>, buf: seq<Byte>, wOffset: nat) returns (chunks: seq<Chunk>)
      requires Valid() && c.blockSize > 0 && buf != [] && wOffset + |buf| <= data.Length
      requires Written(data[..], padded, wOffset, wOffset, buf)
      modifies this, data
      ensures Written(data[..], padded, wOffset, wOffset + |buf|, buf)
      ensures isize == Larger(old(isize), wOffset + |buf|)
      ensures idisksize == if isize == old(isize) then old(idisksize) else isize
      ensures Tile(chunks, wOffset, wOffset + |buf|) && forall k <- chunks :: InOneBlock(k, c.blockSize)
      ensures Aligned(chunks, c.blockSize)
    {
      hide Written, InOneBlock, Tile;
      NothingTiled(wOffset);
      chunks := [];
      var dataCount: nat, bufOffset: nat, inodeOffset: nat := |buf|, 0, wOffset;
      while dataCount > 0
        invariant bufOffset + dataCount == |buf| && inodeOffset == wOffset + bufOffset
        invariant isize == if bufOffset == 0 then old(isize) else Larger(old(isize), inodeOffset)
        invariant idisksize == if isize == old(isize) then old(idisksize) else isize
        invariant Written(data[..], padded, wOffset, inodeOffset, buf)
        invariant Tile(chunks, wOffset, inodeOffset) && forall k <- chunks :: InOneBlock(k, c.blockSize)
        invariant Aligned(chunks, c.blockSize)
        invariant chunks != [] && dataCount > 0 ==>
          (chunks[|chunks| - 1].start + chunks[|chunks| - 1].bytes) % c.blockSize == 0
      {
        var bytes := BytesInBlock(c.blockSize, inodeOffset, dataCount);
        ghost var was := data[..];
        WriteDataToDisk(buf, bufOffset, inodeOffset, bytes);
        WrittenStep(was, padded, wOffset, inodeOffset, bytes, buf, data[..]);
        var newSize := inodeOffset + bytes;
        if newSize > isize {
          idisksize := newSize;
          isize := newSize;
        }
        TileStep(chunks, wOffset, inodeOffset, bytes);
        chunks := chunks + [Chunk(inodeOffset, bytes)];
        bufOffset := bufOffset + bytes;
        inodeOffset := inodeOffset + bytes;
        dataCount := dataCount - bytes;
      }
    }
  }

  /** Bytes from wOffset to at have been written; the rest of the old file is still there. */
  ghost predicate Written(data: seq<Byte>, padded: seq<Byte>, wOffset: nat, at: nat, buf: seq<Byte>) {
    && wOffset <= at <= |data| && wOffset <= |padded| <= |data| && at - wOffset <= |buf|
    && data[..wOffset] == padded[..wOffset]
    && data[wOffset..at] == buf[..at - wOffset]
    && (at < |padded| ==> data[at..|padded|] == padded[at..])
  }

  lemma StartsWritten(data: seq<Byte>, file: seq<Byte>, padded: seq<Byte>, wOffset: nat, buf: seq<Byte>)
    requires padded == if wOffset > |file| then file + Zeros(wOffset - |file|) else file
    requires wOffset <= |data| && |file| <= |data| && data[..|file|] == file
    requires wOffset > |file| ==> data[|file|..wOffset] == Zeros(wOffset - |file|)
    ensures Written(data, padded, wOffset, wOffset, buf)
  {
    if wOffset > |file| {
      assert data[..wOffset] == data[..|file|] + data[|file|..wOffset];
    } else {
      assert padded == data[..|file|];
      assert data[..wOffset] == data[..|file|][..wOffset];
      assert data[wOffset..|file|] == data[..|file|][wOffset..];
    }
  }

  lemma WrittenStep(was: seq<Byte>, padded: seq<Byte>, wOffset: nat, at: nat, bytes: nat, buf: seq<Byte>,
                    data: seq<Byte>)
    requires Written(was, padded, wOffset, at, buf) && at - wOffset + bytes <= |buf| && at + bytes <= |was|
    requires data == was[..at] + buf[at - wOffset..at - wOffset + bytes] + was[at + bytes..]
    ensures Written(data, padded, wOffset, at + bytes, buf)
  {
    assert data[..wOffset] == was[..wOffset];
    assert data[wOffset..at + bytes] == was[wOffset..at] + buf[at - wOffset..at - wOffset + bytes];
    assert buf[..at + bytes - wOffset] == buf[..at - wOffset] + buf[at - wOffset..at - wOffset + bytes];
    if at + bytes < |padded| {
      assert data[at + bytes..|padded|] == was[at + bytes..|padded|] == was[at..|padded|][bytes..];
    }
  }

  lemma WrittenIsFlat(file: seq<Byte>, padded: seq<Byte>, wOffset: nat, bytes: seq<Byte>, data: seq<Byte>,
                      content: seq<Byte>)
    requires padded == if wOffset > |file| then file + Zeros(wOffset - |file|) else file
    requires Written(data, padded, wOffset, wOffset + |bytes|, bytes) && bytes != []
    requires Larger(|file|, wOffset + |bytes|) <= |data| && content == data[..Larger(|file|, wOffset + |bytes|)]
    ensures content == FlatWrite(file, wOffset, bytes)
  {
    var end := wOffset + |bytes|;
    assert data[..end] == data[..wOffset] + data[wOffset..end];
    assert bytes[..|bytes|] == bytes;
    if end < |padded| { assert content == data[..end] + data[end..|padded|]; }
  }
}
