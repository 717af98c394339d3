/** The block device, and an inode's bytes read and written through its
    sectors. */
module Devices {
  import opened Bytes

  const SECTOR_SIZE := 512

  // -------------------------------------------------------------------- device

  class Device {
    var bytes: seq<Byte>

    constructor (sectors: nat)
      ensures |bytes| == SECTOR_SIZE * sectors
    {
      bytes := seq(SECTOR_SIZE * sectors, _ => 0);
    }

    method Read(sector: nat) returns (data: seq<Byte>)
      requires SECTOR_SIZE * sector + SECTOR_SIZE <= |bytes|
      ensures data == bytes[SECTOR_SIZE * sector..SECTOR_SIZE * sector + SECTOR_SIZE]
    {
      data := bytes[SECTOR_SIZE * sector..SECTOR_SIZE * sector + SECTOR_SIZE];
    }

    method Write(sector: nat, data: seq<Byte>)
      requires |data| == SECTOR_SIZE && SECTOR_SIZE * sector + SECTOR_SIZE <= |bytes|
      modifies this
      ensures bytes == Patch(old(bytes), SECTOR_SIZE * sector, data)
    {
      bytes := Patch(bytes, SECTOR_SIZE * sector, data);
    }
  }

  // ------------------------------------------------------------------ inode I/O

  /** How many sectors hold a file of this many bytes. */
  function SectorsFor(length: nat): nat { (length + SECTOR_SIZE - 1) / SECTOR_SIZE }

  /** They are the fewest that hold so many bytes. */
  lemma SectorsForIsLeast(length: nat, n: nat)
    ensures length <= SECTOR_SIZE * n <==> SectorsFor(length) <= n
  {
  }

  /** A file's bytes: `length` bytes from sector `start` on. */
  function Content(bytes: seq<Byte>, start: nat, length: nat): (c: seq<Byte>)
    requires SECTOR_SIZE * start + length <= |bytes|
    ensures |c| == length
  {
    bytes[SECTOR_SIZE * start..SECTOR_SIZE * start + length]
  }

  /** The file's sectors are on the device. */
  predicate OnDevice(bytes: seq<Byte>, start: nat, length: nat) {
    SECTOR_SIZE * (start + SectorsFor(length)) <= |bytes|
  }

  /** The number of bytes an access moves. */
  function Count(size: int, length: nat, offset: nat): nat {
    if size <= 0 || offset >= length then 0 else if size < length - offset then size else length - offset
  }

  lemma FitsOnDevice(bytes: seq<Byte>, start: nat, length: nat)
    requires OnDevice(bytes, start, length)
    ensures SECTOR_SIZE * start + length <= |bytes|
  {
  }

  /** The sector that holds byte `pos` of the file lies wholly on the device. */
  lemma SectorOfByte(bytes: seq<Byte>, start: nat, length: nat, pos: nat)
    requires OnDevice(bytes, start, length) && pos < length
    ensures
      var sector := start + pos / SECTOR_SIZE;
      && SECTOR_SIZE * sector + pos % SECTOR_SIZE == SECTOR_SIZE * start + pos
      && SECTOR_SIZE * sector + SECTOR_SIZE <= |bytes|
  {
    assert pos / SECTOR_SIZE + 1 <= SectorsFor(length);
  }

  /** The bytes to move within the sector of byte `offset`, or none. */
  method Chunk(size: int, length: nat, offset: nat) returns (c: int)
    ensures c > 0 <==> Count(size, length, offset) > 0
    ensures c > 0 ==> offset % SECTOR_SIZE + c <= SECTOR_SIZE && c <= size && offset + c <= length
    ensures c > 0 ==> Count(size, length, offset) == c + Count(size - c, length, offset + c)
  {
    var inodeLeft := length - offset;
    var sectorLeft := SECTOR_SIZE - offset % SECTOR_SIZE;
    var minLeft := if inodeLeft < sectorLeft then inodeLeft else sectorLeft;
    c := if size < minLeft then size else minLeft;
  }

  /** One turn of the reading loop: a chunk of one sector, directly or through
      the bounce buffer. */
  method ReadSector(dev: Device, sectorIdx: nat, sectorOfs: nat, buffer: array<Byte>, at: nat, chunk: nat)
    requires SECTOR_SIZE * sectorIdx + SECTOR_SIZE <= |dev.bytes|
    requires sectorOfs + chunk <= SECTOR_SIZE && at + chunk <= buffer.Length
    modifies buffer
    ensures
      var a := SECTOR_SIZE * sectorIdx + sectorOfs;
      buffer[..] == Patch(old(buffer[..]), at, dev.bytes[a..a + chunk])
  {
    ghost var a := SECTOR_SIZE * sectorIdx;
    SliceOfSlice(dev.bytes, a, a + SECTOR_SIZE, sectorOfs, sectorOfs + chunk);
    if sectorOfs == 0 && chunk == SECTOR_SIZE {
      var data := dev.Read(sectorIdx);
      CopyTo(buffer, at, data);
    } else {
      var bounce := dev.Read(sectorIdx);
      CopyTo(buffer, at, bounce[sectorOfs..sectorOfs + chunk]);
    }
  }

  method ReadChunk(dev: Device, start: nat, length: nat, buffer: array<Byte>, at: nat, chunk: nat, pos: nat)
    requires OnDevice(dev.bytes, start, length) && SECTOR_SIZE * start + length <= |dev.bytes|
    requires 0 < chunk && pos + chunk <= length
    requires pos % SECTOR_SIZE + chunk <= SECTOR_SIZE && at + chunk <= buffer.Length
    modifies buffer
    ensures buffer[..] == Patch(old(buffer[..]), at, Content(dev.bytes, start, length)[pos..pos + chunk])
  {
    SectorOfByte(dev.bytes, start, length, pos);
    SliceOfSlice(dev.bytes, SECTOR_SIZE * start, SECTOR_SIZE * start + length, pos, pos + chunk);
    ReadSector(dev, start + pos / SECTOR_SIZE, pos % SECTOR_SIZE, buffer, at, chunk);
  }

  /** The first bytes of the buffer are those of the file from `offset` on. */
  ghost predicate HasRead(now: seq<Byte>, was: seq<Byte>, content: seq<Byte>, offset: nat, done: nat) {
    && done <= |was| && (done > 0 ==> offset + done <= |content|)
    && now == Patch(was, 0, Take(content, offset, done))
  }

  lemma ReadOn(now: seq<Byte>, next: seq<Byte>, was: seq<Byte>, content: seq<Byte>, offset: nat, done: nat, pos: nat,
               chunk: nat)
    requires HasRead(now, was, content, offset, done) && pos == offset + done
    requires 0 < chunk && pos + chunk <= |content| && done + chunk <= |was|
    requires next == Patch(now, done, content[pos..pos + chunk])
    ensures HasRead(next, was, content, offset, done + chunk)
  {
    PatchPatch(was, 0, Take(content, offset, done), content[pos..pos + chunk]);
    assert Take(content, offset, done) + content[pos..pos + chunk] == Take(content, offset, done + chunk);
  }

  /** One turn of the reading loop. */
  method ReadStep(dev: Device, start: nat, length: nat, buffer: array<Byte>, left: int, done: nat, pos: nat,
                  ghost was: seq<Byte>, ghost content: seq<Byte>, ghost offset: nat)
    returns (chunk: int)
    requires OnDevice(dev.bytes, start, length) && SECTOR_SIZE * start + length <= |dev.bytes|
    requires content == Content(dev.bytes, start, length)
    requires done + left <= buffer.Length && pos == offset + done
    requires HasRead(buffer[..], was, content, offset, done)
    modifies buffer
    ensures chunk > 0 <==> Count(left, length, pos) > 0
    ensures chunk > 0 ==> chunk <= left && pos + chunk <= length
    ensures chunk > 0 ==> Count(left, length, pos) == chunk + Count(left - chunk, length, pos + chunk)
    ensures HasRead(buffer[..], was, content, offset, if chunk > 0 then done + chunk else done)
  {
    chunk := Chunk(left, length, pos);
    if chunk > 0 {
      ghost var now := buffer[..];
      ReadChunk(dev, start, length, buffer, done, chunk, pos);
      ReadOn(now, buffer[..], was, content, offset, done, pos, chunk);
    }
  }

  /** Reads up to `size` bytes from `offset`: exactly the bytes of the flat file,
      and the rest of the buffer stays. */
  method ReadAt(dev: Device, start: nat, length: nat, buffer: array<Byte>, size: int, offset: nat)
    returns (bytesRead: nat)
    requires OnDevice(dev.bytes, start, length)
    requires size <= buffer.Length
    modifies buffer
    ensures bytesRead == Count(size, length, offset)
    ensures SECTOR_SIZE * start + length <= |dev.bytes|
    ensures buffer[..] == Patch(old(buffer[..]), 0, Take(Content(dev.bytes, start, length), offset, bytesRead))
  {
    FitsOnDevice(dev.bytes, start, length);
    ghost var was, content := buffer[..], Content(dev.bytes, start, length);
    PatchNothing(was, 0);
    var left: int, pos: nat := size, offset;
    bytesRead := 0;
    while left > 0
      invariant bytesRead + Count(left, length, pos) == Count(size, length, offset)
      invariant left == size - bytesRead && pos == offset + bytesRead
      invariant HasRead(buffer[..], was, content, offset, bytesRead)
    {
      var chunk := ReadStep(dev, start, length, buffer, left, bytesRead, pos, was, content, offset);
      if chunk <= 0 {
        break;
      }
      left := left - chunk;
      pos := pos + chunk;
      bytesRead := bytesRead + chunk;
    }
  }

  /** One turn of the writing loop. A partly written sector is first read, so
      that the bytes around the chunk are put back as they were; starting from
      zeros never happens. */
  method WriteSector(dev: Device, sectorIdx: nat, sectorOfs: nat, data: seq<Byte>)
    requires SECTOR_SIZE * sectorIdx + SECTOR_SIZE <= |dev.bytes|
    requires sectorOfs + |data| <= SECTOR_SIZE && 0 < |data|
    modifies dev
    ensures dev.bytes == Patch(old(dev.bytes), SECTOR_SIZE * sectorIdx + sectorOfs, data)
  {
    var sectorLeft := SECTOR_SIZE - sectorOfs;
    if sectorOfs == 0 && |data| == SECTOR_SIZE {
      dev.Write(sectorIdx, data);
    } else {
      var bounce: seq<Byte> := [];
      if sectorOfs > 0 || |data| < sectorLeft {
        bounce := dev.Read(sectorIdx);
      } else {
        assert false;
      }
      PatchWithin(dev.bytes, SECTOR_SIZE * sectorIdx, SECTOR_SIZE, sectorOfs, data);
      bounce := Patch(bounce, sectorOfs, data);
      dev.Write(sectorIdx, bounce);
    }
  }

  method WriteChunk(dev: Device, start: nat, length: nat, data: seq<Byte>, pos: nat)
    requires OnDevice(dev.bytes, start, length) && pos < length && SECTOR_SIZE * start + pos + |data| <= |dev.bytes|
    requires pos % SECTOR_SIZE + |data| <= SECTOR_SIZE && 0 < |data|
    modifies dev
    ensures dev.bytes == Patch(old(dev.bytes), SECTOR_SIZE * start + pos, data)
  {
    SectorOfByte(dev.bytes, start, length, pos);
    WriteSector(dev, start + pos / SECTOR_SIZE, pos % SECTOR_SIZE, data);
  }

  /** The turn of the loop that continues a write of `done` bytes. */
  method WriteStep(dev: Device, start: nat, length: nat, buffer: seq<Byte>, left: int, done: nat, offset: nat,
                   ghost was: seq<Byte>)
    returns (chunk: int)
    requires OnDevice(dev.bytes, start, length) && SECTOR_SIZE * start + length <= |dev.bytes| == |was|
    requires done + left <= |buffer| && done <= |buffer| && (done > 0 ==> offset + done <= length)
    requires dev.bytes == Written(was, SECTOR_SIZE * start + offset, buffer, done)
    modifies dev
    ensures chunk > 0 <==> Count(left, length, offset + done) > 0
    ensures chunk > 0 ==> chunk <= left && offset + done + chunk <= length
    ensures chunk > 0 ==> Count(left, length, offset + done) == chunk + Count(left - chunk, length, offset + done + chunk)
    ensures chunk > 0 ==> dev.bytes == Written(was, SECTOR_SIZE * start + offset, buffer, done + chunk)
    ensures chunk <= 0 ==> dev.bytes == old(dev.bytes)
  {
    chunk := Chunk(left, length, offset + done);
    if chunk > 0 {
      WriteChunk(dev, start, length, buffer[done..done + chunk], offset + done);
      WriteOn(was, SECTOR_SIZE * start + offset, buffer, done, chunk);
    }
  }

  /** The device after the first n bytes of the buffer were put at position a. */
  function Written(was: seq<Byte>, a: nat, buffer: seq<Byte>, n: nat): (r: seq<Byte>)
    requires n <= |buffer| && (n > 0 ==> a + n <= |was|)
    ensures |r| == |was|
  {
    if n == 0 then was else Patch(was, a, buffer[..n])
  }

  lemma WriteOn(was: seq<Byte>, a: nat, buffer: seq<Byte>, done: nat, chunk: nat)
    requires done + chunk <= |buffer| && a + done + chunk <= |was| && 0 < chunk
    ensures Patch(Written(was, a, buffer, done), a + done, buffer[done..done + chunk])
         == Written(was, a, buffer, done + chunk)
  {
    PatchNothing(was, a);
    PatchPatch(was, a, buffer[..done], buffer[done..done + chunk]);
    assert buffer[..done] + buffer[done..done + chunk] == buffer[..done + chunk];
  }

  /** Writes up to `size` bytes at `offset`, none when writes are denied. The
      device changes in exactly those bytes: every other byte of this file, and
      of the whole device, stays. */
  method WriteAt(dev: Device, start: nat, length: nat, denied: bool, buffer: seq<Byte>, size: int, offset: nat)
    returns (bytesWritten: nat)
    requires OnDevice(dev.bytes, start, length)
    requires size <= |buffer|
    modifies dev
    ensures bytesWritten == if denied then 0 else Count(size, length, offset)
    ensures bytesWritten <= |buffer|
    ensures bytesWritten > 0 ==> SECTOR_SIZE * start + offset + bytesWritten <= |old(dev.bytes)|
    ensures dev.bytes == Written(old(dev.bytes), SECTOR_SIZE * start + offset, buffer, bytesWritten)
  {
    if denied {
      return 0;
    }
    FitsOnDevice(dev.bytes, start, length);
    ghost var was := dev.bytes;
    var left := size;
    bytesWritten := 0;
    while left > 0
      invariant bytesWritten + Count(left, length, offset + bytesWritten) == Count(size, length, offset)
      invariant left == size - bytesWritten && bytesWritten <= |buffer|
      invariant bytesWritten > 0 ==> offset + bytesWritten <= length
      invariant dev.bytes == Written(was, SECTOR_SIZE * start + offset, buffer, bytesWritten)
    {
      var chunk := WriteStep(dev, start, length, buffer, left, bytesWritten, offset, was);
      if chunk <= 0 {
        break;
      }
      left := left - chunk;
      bytesWritten := bytesWritten + chunk;
    }
  }
}
