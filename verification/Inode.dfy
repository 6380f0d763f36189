/** Inode I/O of filesys/inode.c.  A file is a run of consecutive 512-byte sectors;
    reads and writes go sector by sector, through a bounce buffer when a sector is
    only partly touched, and refine slicing and overwriting of one flat byte string. */
module Inode {
  import opened Bytes
  import opened Machine
  import opened Products

  const SECTOR_SIZE: nat := 512

  type Sectors = seq<seq<Byte>>

  /** The on-disk inode, without its unused part. */
  datatype Data = Data(start: nat, length: nat)

  /** bytes_to_sectors. */
  function BytesToSectors(size: nat): nat {
    (size + SECTOR_SIZE - 1) / SECTOR_SIZE
  }

  /** As many sectors as the bytes need, and no more. */
  lemma BytesToSectorsIsLeast(size: nat)
    ensures SECTOR_SIZE * (BytesToSectors(size) - 1) < size <= SECTOR_SIZE * BytesToSectors(size)
  {
  }

  ghost predicate WholeSectors(disk: Sectors) {
    forall s :: 0 <= s < |disk| ==> |disk[s]| == SECTOR_SIZE
  }

  /** The data sectors exist. */
  ghost predicate OnDisk(disk: Sectors, f: Data) {
    WholeSectors(disk) && f.start + BytesToSectors(f.length) <= |disk|
  }

  /** The sector of the file in which byte `pos` lies exists. */
  lemma SectorExists(disk: Sectors, f: Data, pos: nat)
    requires OnDisk(disk, f) && pos < f.length
    ensures f.start + pos / SECTOR_SIZE < f.start + BytesToSectors(f.length) <= |disk|
  {
  }

  /** The bytes of a file. */
  ghost function Contents(disk: Sectors, f: Data): (b: seq<Byte>)
    requires OnDisk(disk, f)
    ensures |b| == f.length
  {
    seq(f.length, i requires 0 <= i < f.length =>
      SectorExists(disk, f, i); disk[f.start + i / SECTOR_SIZE][i % SECTOR_SIZE])
  }

  /** How many bytes a request reaches: up to the end of the file; without a bounce
      buffer only whole sectors from an aligned start. */
  function Reach(f: Data, size: int, offset: nat, memory: bool): (n: nat)
    ensures n <= Max(0, Min(size, f.length - offset))
    ensures memory ==> n == Max(0, Min(size, f.length - offset))
  {
    var n := Max(0, Min(size, f.length - offset));
    if memory then n else if offset % SECTOR_SIZE == 0 then n - n % SECTOR_SIZE else 0
  }

  /** Without memory for a bounce buffer a request reaches as many whole sectors as the file and
      the request have, if it starts at a sector, and otherwise nothing. */
  lemma ReachWithoutMemory(f: Data, size: int, offset: nat)
    ensures var n, all := Reach(f, size, offset, false), Max(0, Min(size, f.length - offset));
            && n % SECTOR_SIZE == 0 && n <= all
            && (if offset % SECTOR_SIZE == 0 then all - n < SECTOR_SIZE else n == 0)
  {
    var all := Max(0, Min(size, f.length - offset));
    var q := all / SECTOR_SIZE;
    assert all - all % SECTOR_SIZE == SECTOR_SIZE * q;
    WholeSector(q);
  }

  lemma WholeSector(q: nat)
    ensures SECTOR_SIZE * q % SECTOR_SIZE == 0
  {
  }

  /** The size of the next chunk: to the end of the request, the file or the sector. */
  function ChunkSize(f: Data, size: int, offset: nat): int {
    Min(size, Min(f.length - offset, SECTOR_SIZE - offset % SECTOR_SIZE))
  }

  /** The loop on the rest of a request reaches the rest of the bytes. */
  lemma ReachChunk(f: Data, size: nat, offset: nat, memory: bool)
    requires size > 0
    ensures var c := ChunkSize(f, size, offset);
            if c <= 0 || !(memory || (offset % SECTOR_SIZE == 0 && c == SECTOR_SIZE))
            then Reach(f, size, offset, memory) == 0
            else Reach(f, size, offset, memory) == c + Reach(f, size - c, offset + c, memory)
  {
  }

  lemma ChunkFits(f: Data, size: int, offset: nat)
    requires ChunkSize(f, size, offset) > 0
    ensures var c := ChunkSize(f, size, offset);
            c <= size && offset + c <= f.length && offset % SECTOR_SIZE + c <= SECTOR_SIZE
  {
  }

  /** A chunk lies within one sector of the file. */
  lemma ChunkBytes(disk: Sectors, f: Data, offset: nat, c: nat)
    requires OnDisk(disk, f) && 0 < c && offset + c <= f.length && offset % SECTOR_SIZE + c <= SECTOR_SIZE
    ensures f.start + offset / SECTOR_SIZE < |disk|
    ensures var o := offset % SECTOR_SIZE;
            disk[f.start + offset / SECTOR_SIZE][o..o + c] == Contents(disk, f)[offset..offset + c]
  {
    var o := offset % SECTOR_SIZE;
    SectorExists(disk, f, offset);
    var part, bytes := disk[f.start + offset / SECTOR_SIZE][o..o + c], Contents(disk, f);
    forall k | 0 <= k < c ensures part[k] == bytes[offset..offset + c][k] {
      assert (offset + k) / SECTOR_SIZE == offset / SECTOR_SIZE && (offset + k) % SECTOR_SIZE == o + k;
    }
  }

  /** `r` is `b` with `n` bytes of `data` from `at` written over it at `offset`. */
  ghost predicate Overwritten(b: seq<Byte>, offset: nat, data: seq<Byte>, at: nat, n: nat, r: seq<Byte>)
    requires at + n <= |data|
  {
    && |r| == |b|
    && forall i :: 0 <= i < |b| ==> r[i] == if offset <= i < offset + n then data[at + i - offset] else b[i]
  }

  lemma OverwrittenMore(b: seq<Byte>, mid: seq<Byte>, r: seq<Byte>, offset: nat, data: seq<Byte>, n: nat, c: nat)
    requires n + c <= |data| && Overwritten(b, offset, data, 0, n, mid) && Overwritten(mid, offset + n, data, n, c, r)
    ensures Overwritten(b, offset, data, 0, n + c, r)
  {
  }

  /** `b` with `data` written over it at `offset`. */
  function Overwrite(b: seq<Byte>, offset: nat, data: seq<Byte>): (r: seq<Byte>)
    ensures |r| == |b|
  {
    seq(|b|, i requires 0 <= i < |b| => if offset <= i < offset + |data| then data[i - offset] else b[i])
  }

  /** Writing one chunk into its sector overwrites the same bytes of the file. */
  lemma ChunkOverwrites(disk: Sectors, f: Data, offset: nat, data: seq<Byte>)
    requires OnDisk(disk, f) && data != [] && offset + |data| <= f.length
    requires offset % SECTOR_SIZE + |data| <= SECTOR_SIZE
    ensures f.start + offset / SECTOR_SIZE < |disk|
    ensures var s := f.start + offset / SECTOR_SIZE;
            var after := disk[s := Overwrite(disk[s], offset % SECTOR_SIZE, data)];
            OnDisk(after, f) && Overwritten(Contents(disk, f), offset, data, 0, |data|, Contents(after, f))
  {
    SectorExists(disk, f, offset);
    var s, o := f.start + offset / SECTOR_SIZE, offset % SECTOR_SIZE;
    var after := disk[s := Overwrite(disk[s], o, data)];
    var old', new' := Contents(disk, f), Contents(after, f);
    forall i | 0 <= i < f.length
      ensures new'[i] == if offset <= i < offset + |data| then data[i - offset] else old'[i]
    {
      SectorExists(disk, f, i);
      if i / SECTOR_SIZE == offset / SECTOR_SIZE {
        assert i - offset == i % SECTOR_SIZE - o;
      } else {
        assert i < offset || offset + |data| <= i;
      }
    }
  }

  /** A write to sectors of one file is not seen through a file with other sectors. */
  lemma OtherFileSame(before: Sectors, after: Sectors, f: Data, g: Data)
    requires OnDisk(before, g) && WholeSectors(after)
    requires OnlySectors(before, after, f.start, BytesToSectors(f.length))
    requires f.start + BytesToSectors(f.length) <= g.start || g.start + BytesToSectors(g.length) <= f.start
    ensures Contents(after, g) == Contents(before, g)
  {
    forall i | 0 <= i < g.length ensures Contents(after, g)[i] == Contents(before, g)[i] {
      SectorExists(before, g, i);
    }
  }

  /** The disks differ at most in `cnt` sectors from `start`. */
  ghost predicate OnlySectors(before: Sectors, after: Sectors, start: nat, cnt: nat) {
    |before| == |after| && forall s :: 0 <= s < |before| && !(start <= s < start + cnt) ==> after[s] == before[s]
  }

  // ----- the inode sector

  const MAGIC: nat := 0x494e4f44

  function Zeros(n: nat): seq<Byte> {
    seq(n, _ => 0)
  }

  function Encode(f: Data): (r: seq<Byte>)
    requires f.start < B32 && f.length < 0x8000_0000
    ensures |r| == SECTOR_SIZE
  {
    Le32(f.start) + Le32(f.length) + Le32(MAGIC) + Zeros(500)
  }

  function Decode(b: seq<Byte>): Data
    requires |b| == SECTOR_SIZE
  {
    Data(FromLe(b[0..4]), FromLe(b[4..8]))
  }

  /** inode_open reads back what inode_create wrote. */
  lemma DecodeEncode(f: Data)
    requires f.start < B32 && f.length < 0x8000_0000
    ensures Decode(Encode(f)) == f
  {
    var b := Encode(f);
    assert b[0..4] == Le32(f.start) && b[4..8] == Le32(f.length);
    Le32RoundTrip(f.start);
    Le32RoundTrip(f.length);
  }

  // ----- the operations

  class Disk {
    var sectors: Sectors

    constructor (sectors: Sectors)
      requires WholeSectors(sectors)
      ensures this.sectors == sectors
    {
      this.sectors := sectors;
    }

    /** The disk side of inode_create: the inode sector and zeroed data sectors. */
    method Create(sector: nat, f: Data)
      requires OnDisk(sectors, f) && sector < |sectors| && f.start < B32 && f.length < 0x8000_0000
      requires sector < f.start || f.start + BytesToSectors(f.length) <= sector
      modifies this
      ensures OnDisk(sectors, f) && |sectors| == old(|sectors|)
      ensures Decode(sectors[sector]) == f && Contents(sectors, f) == Zeros(f.length)
      ensures forall s :: 0 <= s < |sectors| && s != sector && !(f.start <= s < f.start + BytesToSectors(f.length)) ==>
                sectors[s] == old(sectors)[s]
    {
      var n := BytesToSectors(f.length);
      DecodeEncode(f);
      sectors := sectors[sector := Encode(f)];
      for i := 0 to n
        invariant |sectors| == old(|sectors|) && WholeSectors(sectors) && sectors[sector] == Encode(f)
        invariant forall s :: f.start <= s < f.start + i ==> sectors[s] == Zeros(SECTOR_SIZE)
        invariant forall s :: 0 <= s < |sectors| && s != sector && !(f.start <= s < f.start + i) ==>
                    sectors[s] == old(sectors)[s]
      {
        sectors := sectors[f.start + i := Zeros(SECTOR_SIZE)];
      }
      forall i | 0 <= i < f.length ensures Contents(sectors, f)[i] == 0 {
        SectorExists(sectors, f, i);
      }
    }

    /** inode_read_at; `memory` says whether the bounce buffer can be allocated. */
    method ReadAt(f: Data, buffer: array<Byte>, size: int, offset: nat, memory: bool) returns (n: nat)
      requires OnDisk(sectors, f) && size <= buffer.Length
      modifies buffer
      ensures n == Reach(f, size, offset, memory) && n <= buffer.Length
      ensures offset + n <= f.length || n == 0
      ensures forall i :: 0 <= i < buffer.Length ==>
                buffer[i] == if i < n then Contents(sectors, f)[offset + i] else old(buffer[i])
    {
      var left, pos := size, offset;
      n := 0;
      ghost var bytes := Contents(sectors, f);
      while left > 0
        invariant left == size - n && pos == offset + n && n <= buffer.Length && (n > 0 ==> pos <= f.length)
        invariant n + Reach(f, left, pos, memory) == Reach(f, size, offset, memory)
        invariant forall i :: 0 <= i < buffer.Length ==>
          buffer[i] == if i < n then bytes[offset + i] else old(buffer[i])
        decreases left
      {
        var c := ChunkSize(f, left, pos);
        ReachChunk(f, left, pos, memory);
        if c <= 0 {
          break;
        }
        ChunkFits(f, left, pos);
        var ok := ReadChunk(f, buffer, n, pos, c, memory);
        if !ok {
          break;
        }
        left, pos, n := left - c, pos + c, n + c;
      }
    }

    /** Reads `c` bytes of one sector into the buffer; fails only for want of memory. */
    method ReadChunk(f: Data, buffer: array<Byte>, at: nat, pos: nat, c: nat, memory: bool) returns (ok: bool)
      requires OnDisk(sectors, f) && 0 < c && pos + c <= f.length && pos % SECTOR_SIZE + c <= SECTOR_SIZE
      requires at + c <= buffer.Length
      modifies buffer
      ensures ok <==> memory || (pos % SECTOR_SIZE == 0 && c == SECTOR_SIZE)
      ensures forall i :: 0 <= i < buffer.Length ==>
                buffer[i] == if ok && at <= i < at + c then Contents(sectors, f)[pos + i - at] else old(buffer[i])
    {
      ChunkBytes(sectors, f, pos, c);
      var sector, ofs := f.start + pos / SECTOR_SIZE, pos % SECTOR_SIZE;
      ok := true;
      if ofs == 0 && c == SECTOR_SIZE {
        CopyInto(buffer, at, sectors[sector]);
      } else if memory {
        var bounce := sectors[sector];
        CopyInto(buffer, at, bounce[ofs..ofs + c]);
      } else {
        ok := false;
      }
    }

    /** inode_write_at; `deny` is the number of openers that deny writes. */
    method WriteAt(f: Data, deny: nat, buffer: seq<Byte>, size: int, offset: nat, memory: bool) returns (n: nat)
      requires OnDisk(sectors, f) && size <= |buffer|
      modifies this
      ensures OnDisk(sectors, f) && OnlySectors(old(sectors), sectors, f.start, BytesToSectors(f.length))
      ensures n == if deny > 0 then 0 else Reach(f, size, offset, memory)
      ensures n <= |buffer| && (offset + n <= f.length || n == 0)
      ensures Overwritten(old(Contents(sectors, f)), offset, buffer, 0, n, Contents(sectors, f))
    {
      hide ChunkSize, Contents, Reach;
      n := 0;
      ghost var bytes := Contents(sectors, f);
      if deny > 0 {
        return;
      }
      var left, pos := size, offset;
      while left > 0
        invariant left == size - n && pos == offset + n && n <= |buffer| && (n > 0 ==> pos <= f.length)
        invariant n + Reach(f, left, pos, memory) == Reach(f, size, offset, memory)
        invariant OnDisk(sectors, f) && OnlySectors(old(sectors), sectors, f.start, BytesToSectors(f.length))
        invariant Overwritten(bytes, offset, buffer, 0, n, Contents(sectors, f))
        decreases left
      {
        var c := ChunkSize(f, left, pos);
        ReachChunk(f, left, pos, memory);
        if c <= 0 {
          break;
        }
        ChunkFits(f, left, pos);
        ghost var mid := Contents(sectors, f);
        var ok := WriteChunk(f, buffer, n, pos, c, memory);
        if !ok {
          break;
        }
        OverwrittenMore(bytes, mid, Contents(sectors, f), offset, buffer, n, c);
        left, pos, n := left - c, pos + c, n + c;
      }
    }

    /** Writes part of one sector; fails only for want of memory.  The sector is always
        read first: it is never one that the chunk covers completely. */
    method WriteChunk(f: Data, buffer: seq<Byte>, at: nat, pos: nat, c: nat, memory: bool) returns (ok: bool)
      requires OnDisk(sectors, f) && 0 < c && pos + c <= f.length && pos % SECTOR_SIZE + c <= SECTOR_SIZE
      requires at + c <= |buffer|
      modifies this
      ensures OnDisk(sectors, f) && OnlySectors(old(sectors), sectors, f.start, BytesToSectors(f.length))
      ensures ok <==> memory || (pos % SECTOR_SIZE == 0 && c == SECTOR_SIZE)
      ensures Overwritten(old(Contents(sectors, f)), pos, buffer, at, if ok then c else 0, Contents(sectors, f))
    {
      var chunk := buffer[at..at + c];
      ChunkOverwrites(sectors, f, pos, chunk);
      SectorExists(sectors, f, pos);
      var sector, ofs := f.start + pos / SECTOR_SIZE, pos % SECTOR_SIZE;
      ok := true;
      if ofs == 0 && c == SECTOR_SIZE {
        assert chunk == Overwrite(sectors[sector], 0, chunk);
        sectors := sectors[sector := chunk];
      } else if memory {
        var bounce := sectors[sector];
        if !(ofs > 0 || c < SECTOR_SIZE - ofs) {
          assert false;
          bounce := Zeros(SECTOR_SIZE);
        }
        sectors := sectors[sector := Overwrite(bounce, ofs, chunk)];
      } else {
        ok := false;
      }
    }
  }

  /** memcpy into a buffer. */
  method CopyInto(buffer: array<Byte>, at: nat, chunk: seq<Byte>)
    requires at + |chunk| <= buffer.Length
    modifies buffer
    ensures forall i :: 0 <= i < buffer.Length ==>
              buffer[i] == if at <= i < at + |chunk| then chunk[i - at] else old(buffer[i])
  {
    for i := 0 to |chunk|
      invariant forall j :: 0 <= j < buffer.Length ==>
                  buffer[j] == if at <= j < at + i then chunk[j - at] else old(buffer[j])
    {
      buffer[at + i] := chunk[i];
    }
  }
}
