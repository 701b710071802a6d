/**
 * The RAM disk behind the mass-storage firmware: 32 sectors of 512 bytes in
 * a static array, read and written whole sectors at a time by bounds-checked
 * copies between the disk and a caller's buffer.
 *
 * The C guard `lba + count > 32` is evaluated in `uint32_t` and can wrap;
 * `GuardAsWritten` models it as written and `OutOfRange` is the guard over
 * unbounded integers that the copies need. The methods use `OutOfRange`.
 */
module Msc {
  import opened Types

  const Sectors: nat := 32
  const SectorSize: nat := 512
  /** The size of the disk array in bytes, 32 * 512. */
  const DiskSize: nat := 16384

  /** The number of bytes in `n` sectors (the literal keeps the arithmetic linear). */
  function Bytes(n: int): int {
    n * 512
  }

  /** The sector count the firmware reports: it tiles the disk with sectors of `SectorSize` bytes. */
  function MscGetSectorCount(): (n: int)
    ensures n > 0 && Bytes(n) == DiskSize
  {
    Sectors
  }

  /** The sector size the firmware reports: the reported number of them fills the disk. */
  function MscGetSectorSize(): (n: int)
    ensures n > 0 && MscGetSectorCount() * n == DiskSize
  {
    SectorSize
  }

  // ---------------------------------------------------------------------
  // The bounds guard.

  /** The guard over unbounded integers: the request runs past the last sector. */
  predicate OutOfRange(lba: u32, count: u32): (r: bool)
    ensures r <==> Bytes(lba as int) + Bytes(count as int) > DiskSize
  {
    lba as int + count as int > Sectors
  }

  /** The guard as the C code evaluates it, with the sum wrapping modulo 2^32. */
  predicate GuardAsWritten(lba: u32, count: u32): (r: bool)
    ensures r <==> (lba as int + count as int) % 0x1_0000_0000 > Sectors
  {
    AddU32(lba, count) as int > Sectors
  }

  /** The byte offset `lba * 512` as the C code computes it, modulo 2^32. */
  function WrappedOffset(lba: u32): (r: u32)
    ensures Bytes(lba as int) < 0x1_0000_0000 ==> r as int == Bytes(lba as int)
  {
    (Bytes(lba as int) % 0x1_0000_0000) as u32
  }

  /** Within range, the copy stays inside the disk array. */
  lemma {:induction false} InRangeCopyFits(lba: u32, count: u32)
    requires !OutOfRange(lba, count)
    ensures 0 <= Bytes(lba as int) && Bytes(lba as int) + Bytes(count as int) <= DiskSize
    ensures Bytes(lba as int) == WrappedOffset(lba) as int
  {
  }

  /** The two guards disagree exactly when the 32-bit sum wraps to a value of at most 32. */
  lemma {:induction false} GuardsDisagree(lba: u32, count: u32)
    ensures GuardAsWritten(lba, count) != OutOfRange(lba, count)
      <==> 0x1_0000_0000 <= lba as int + count as int <= 0x1_0000_0000 + Sectors
  {
  }

  /** Without wrap-around the guard as written is the intended one. */
  lemma {:induction false} GuardSoundWithoutWrap(lba: u32, count: u32)
    requires lba as int + count as int < 0x1_0000_0000
    ensures GuardAsWritten(lba, count) <==> OutOfRange(lba, count)
  {
  }

  /**
   * A request the guard as written lets through: sector 0xFFFFFFFF, one
   * sector. The sum wraps to 0, and the copy would start at byte
   * 0xFFFFFE00 of a 16384-byte array.
   */
  lemma {:induction false} GuardAsWrittenAdmitsHugeLba()
    ensures !GuardAsWritten(0xFFFF_FFFF, 1)
    ensures OutOfRange(0xFFFF_FFFF, 1)
    ensures WrappedOffset(0xFFFF_FFFF) == 0xFFFF_FE00 && WrappedOffset(0xFFFF_FFFF) as int > DiskSize
  {
  }

  // ---------------------------------------------------------------------
  // The sector operations on the disk's contents.

  /** What a read of `count` sectors from `lba` returns, or None when it is refused. */
  function Read(disk: seq<byte>, lba: u32, count: u32): (r: Option<seq<byte>>)
    requires |disk| == DiskSize
    ensures r.None? <==> OutOfRange(lba, count)
    ensures r.Some? ==> |r.value| == Bytes(count as int)
    ensures r.Some? ==> forall i :: 0 <= i < Bytes(count as int) ==> r.value[i] == disk[Bytes(lba as int) + i]
  {
    if OutOfRange(lba, count) then None
    else Some(disk[Bytes(lba as int)..Bytes(lba as int) + Bytes(count as int)])
  }

  /** The disk after a write of `count` sectors from `data` at `lba`, or None when it is refused. */
  function Write(disk: seq<byte>, lba: u32, count: u32, data: seq<byte>): (r: Option<seq<byte>>)
    requires |disk| == DiskSize
    requires !OutOfRange(lba, count) ==> |data| >= Bytes(count as int)
    ensures r.None? <==> OutOfRange(lba, count)
    ensures r.Some? ==> |r.value| == DiskSize
    ensures r.Some? ==> forall i :: 0 <= i < DiskSize ==>
      r.value[i] == if Bytes(lba as int) <= i < Bytes(lba as int) + Bytes(count as int) then data[i - Bytes(lba as int)] else disk[i]
  {
    if OutOfRange(lba, count) then None
    else
      var lo := Bytes(lba as int);
      var hi := lo + Bytes(count as int);
      Some(disk[..lo] + data[..Bytes(count as int)] + disk[hi..])
  }

  /** Reading back what was just written returns the data written. */
  lemma {:induction false} ReadAfterWrite(disk: seq<byte>, lba: u32, count: u32, data: seq<byte>)
    requires |disk| == DiskSize && !OutOfRange(lba, count) && |data| >= Bytes(count as int)
    ensures Read(Write(disk, lba, count, data).value, lba, count) == Some(data[..Bytes(count as int)])
  {
    var after := Write(disk, lba, count, data).value;
    var back := Read(after, lba, count).value;
    assert back == data[..Bytes(count as int)] by {
      forall i | 0 <= i < Bytes(count as int)
        ensures back[i] == data[i]
      {
        assert back[i] == after[Bytes(lba as int) + i];
      }
    }
  }

  /** A write leaves a read of sectors it does not touch unchanged. */
  lemma {:induction false} WriteKeepsOtherSectors(disk: seq<byte>, lba: u32, count: u32, data: seq<byte>, lba2: u32, count2: u32)
    requires |disk| == DiskSize && !OutOfRange(lba, count) && |data| >= Bytes(count as int)
    requires lba2 as int + count2 as int <= lba as int || lba as int + count as int <= lba2 as int
    ensures Read(Write(disk, lba, count, data).value, lba2, count2) == Read(disk, lba2, count2)
  {
    if !OutOfRange(lba2, count2) {
      var after := Write(disk, lba, count, data).value;
      var r1 := Read(after, lba2, count2).value;
      var r0 := Read(disk, lba2, count2).value;
      forall i | 0 <= i < Bytes(count2 as int)
        ensures r1[i] == r0[i]
      {
        assert r1[i] == after[Bytes(lba2 as int) + i];
      }
      assert r1 == r0;
    }
  }

  /** Writing the same data twice leaves the disk as writing it once. */
  lemma {:induction false} WriteIdempotent(disk: seq<byte>, lba: u32, count: u32, data: seq<byte>)
    requires |disk| == DiskSize && !OutOfRange(lba, count) && |data| >= Bytes(count as int)
    ensures Write(Write(disk, lba, count, data).value, lba, count, data) == Write(disk, lba, count, data)
  {
    var once := Write(disk, lba, count, data).value;
    var twice := Write(once, lba, count, data).value;
    forall i | 0 <= i < DiskSize
      ensures twice[i] == once[i]
    {
    }
    assert twice == once;
  }

  /** A request for no sectors anywhere up to the end succeeds and changes nothing. */
  lemma {:induction false} ZeroCountIsNoOp(disk: seq<byte>, lba: u32, data: seq<byte>)
    requires |disk| == DiskSize && lba as int <= Sectors
    ensures Read(disk, lba, 0) == Some([])
    ensures Write(disk, lba, 0, data) == Some(disk)
  {
    var after := Write(disk, lba, 0, data).value;
    forall i | 0 <= i < DiskSize
      ensures after[i] == disk[i]
    {
    }
    assert after == disk;
  }

  // ---------------------------------------------------------------------
  // The disk as the firmware holds it.

  /** `memcpy(dst + d, src + s, n)` for arrays that do not overlap. */
  method Memcpy(dst: array<byte>, d: nat, src: array<byte>, s: nat, n: nat)
    requires dst != src && d + n <= dst.Length && s + n <= src.Length
    modifies dst
    ensures forall j :: 0 <= j < dst.Length ==> dst[j] == if d <= j < d + n then src[s + j - d] else old(dst[j])
  {
    var i := 0;
    while i < n
      invariant 0 <= i <= n
      invariant forall j :: 0 <= j < dst.Length ==> dst[j] == if d <= j < d + i then src[s + j - d] else old(dst[j])
    {
      dst[d + i] := src[s + i];
      i := i + 1;
    }
  }

  class RamDisk {
    /** `msc_ramdisk`. */
    var data: array<byte>

    ghost predicate Valid()
      reads this
    {
      data.Length == DiskSize
    }

    /** The bytes the disk holds. */
    function Contents(): (c: seq<byte>)
      reads this, data
      ensures |c| == data.Length
    {
      data[..]
    }

    /** The static array starts out zeroed. */
    constructor ()
      ensures Valid() && fresh(data)
      ensures forall i :: 0 <= i < DiskSize ==> Contents()[i] == 0
    {
      data := new byte[DiskSize](_ => 0);
    }

    /**
     * `msc_read_sector`: -1 and nothing copied when the request runs past the
     * last sector; otherwise 0, with the first `count` sectors' worth of `buf`
     * holding the disk's bytes from sector `lba` on.
     */
    method ReadSector(lba: u32, buf: array<byte>, count: u32) returns (status: int)
      requires Valid() && buf != data
      requires !OutOfRange(lba, count) ==> buf.Length >= Bytes(count as int)
      modifies buf
      ensures Valid()
      ensures status == (if OutOfRange(lba, count) then -1 else 0)
      ensures Contents() == old(Contents())
      ensures OutOfRange(lba, count) ==> buf[..] == old(buf[..])
      ensures !OutOfRange(lba, count) ==>
        buf[..Bytes(count as int)] == Read(Contents(), lba, count).value
        && buf[Bytes(count as int)..] == old(buf[Bytes(count as int)..])
    {
      if OutOfRange(lba, count) {
        return -1;
      }
      InRangeCopyFits(lba, count);
      Memcpy(buf, 0, data, Bytes(lba as int), Bytes(count as int));
      assert buf[..Bytes(count as int)] == Read(Contents(), lba, count).value;
      assert buf[Bytes(count as int)..] == old(buf[Bytes(count as int)..]);
      return 0;
    }

    /**
     * `msc_write_sector`: -1 and the disk unchanged when the request runs past
     * the last sector; otherwise 0, with `count` sectors from `buf` stored
     * at sector `lba` and every other byte of the disk unchanged.
     */
    method WriteSector(lba: u32, buf: array<byte>, count: u32) returns (status: int)
      requires Valid() && buf != data
      requires !OutOfRange(lba, count) ==> buf.Length >= Bytes(count as int)
      modifies data
      ensures Valid()
      ensures status == (if OutOfRange(lba, count) then -1 else 0)
      ensures Contents() == if OutOfRange(lba, count) then old(Contents()) else Write(old(Contents()), lba, count, buf[..]).value
    {
      if OutOfRange(lba, count) {
        return -1;
      }
      InRangeCopyFits(lba, count);
      ghost var before := data[..];
      Memcpy(data, Bytes(lba as int), buf, 0, Bytes(count as int));
      assert data[..] == Write(before, lba, count, buf[..]).value;
      return 0;
    }
  }

  /**
   * Through the methods: a write of sectors lba .. lba+count-1 followed by a
   * read of the same sectors succeeds and returns the data written, also
   * when the read goes back into the buffer the data came from.
   */
  method RoundTrip(disk: RamDisk, lba: u32, src: array<byte>, dst: array<byte>, count: u32)
    requires disk.Valid() && src != disk.data && dst != disk.data
    requires !OutOfRange(lba, count) && src.Length >= Bytes(count as int) && dst.Length >= Bytes(count as int)
    modifies disk.data, dst
    ensures disk.Valid()
    ensures dst[..Bytes(count as int)] == old(src[..Bytes(count as int)])
  {
    ghost var data := src[..Bytes(count as int)];
    var w := disk.WriteSector(lba, src, count);
    ReadAfterWrite(old(disk.Contents()), lba, count, src[..]);
    assert src[..][..Bytes(count as int)] == data;
    var r := disk.ReadSector(lba, dst, count);
  }
}
