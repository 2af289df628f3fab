/**
  `Device::access`, `read` and `write` of the IDE driver
  (arch/i386/ide.cpp): choosing CHS, 28-bit or 48-bit addressing, the
  values written to the command-block registers, and the transfer.

  The registers written are recorded, in order, as a trace of
  `RegWrite`s.  What the drive reads back from them is given by
  `AddressOf`, the ATA/ATAPI-6 standard's reading of the address
  registers: cylinder, head and sector in CHS mode (with the 16-head,
  63-sector geometry the driver assumes), the 28-bit LBA of the LBA bit in
  the Device register, and the 48-bit LBA of the 48-bit Address feature
  set.  It is the reference the address computations are proved against.
 */
module IdeAccess {
  import opened Bits
  import opened KMath
  import opened Ide

  /** Addresses from here on need 48-bit addressing. */
  const LBA48_THRESHOLD: nat := 0x1000_0000
  /** `FEATURES_SUPPORTS_LBA` is `1 << 9` in identification word 49. */
  const FEATURES_SUPPORTS_LBA_BIT: nat := 9
  const SECTORS_PER_TRACK: nat := 63
  const HEADS: nat := 16

  // Commands.
  const READ_PIO: u8 := 0x20
  const READ_PIO_EXT: u8 := 0x24
  const WRITE_PIO: u8 := 0x30
  const WRITE_PIO_EXT: u8 := 0x34
  const CACHE_FLUSH: u8 := 0xe7
  const CACHE_FLUSH_EXT: u8 := 0xea

  datatype AddressMode = Chs | Lba28 | Lba48

  /** The address registers to write (`lba_io`) and the head nibble of the drive-select register. */
  datatype Addressing = Addressing(mode: AddressMode, io: seq<u8>, head: u8)

  /** Registers of the command block, at `base_port + 2 ..= base_port + 7`. */
  datatype Register = SectorCountReg | Lba0Reg | Lba1Reg | Lba2Reg | DriveSelectReg | CommandReg

  datatype RegWrite = RegWrite(reg: Register, value: u8)

  /** `min(buffer.get_size() / 512, 255)`: the whole sectors that fit, at most 255. */
  function SectorCount(bufferSize: nat): (c: u8)
    ensures SECTOR_BYTES * c <= bufferSize
    ensures c == 255 || bufferSize < SECTOR_BYTES * (c + 1)
    ensures c > 0 <==> bufferSize >= SECTOR_BYTES
  {
    Min(bufferSize / SECTOR_BYTES, 255)
  }

  /**
    The CHS branch, reached only below `0x1000'0000`, so the `uint32_t`
    arithmetic does not wrap: the sector counts from 1, and the `uint16_t`
    cylinder keeps only the low 16 bits of the track number divided by 16.
   */
  function ChsAddressing(lba: u64): (a: Addressing)
    requires lba < LBA48_THRESHOLD
    ensures a.mode == Chs && |a.io| == 6 && a.head < HEADS
    ensures a.io[0] == lba % 63 + 1 && a.io[3..] == [0, 0, 0]
    ensures a.io[1] as int + 256 * (a.io[2] as int) == (lba / 63 / 16) % 0x1_0000
    ensures a.head == (lba / 63) % 16
  {
    var lbaLow := lba % 0x1_0000_0000;
    assert lbaLow == lba by {
      DivUnique(lba, 0x1_0000_0000, 0, lba);
    }
    var sector := lbaLow % 63 + 1;
    var track := lbaLow + 1 - sector;
    ChsArithmetic(lbaLow, sector, track);
    var cylinder := (track / (16 * 63)) % 0x1_0000;
    var head := track % (16 * 63) / 63;
    var lo, hi := LowByte(cylinder), HighByte(cylinder);
    assert lo + 256 * hi == cylinder;
    Addressing(Chs, [sector, lo, hi, 0, 0, 0], head)
  }

  /** `lba + 1 - sector` is the first sector of the track, `63 * (lba / 63)`. */
  lemma {:induction false} ChsArithmetic(lba: nat, sector: nat, track: int)
    requires sector == lba % 63 + 1 && track == lba + 1 - sector
    ensures track / 1008 == lba / 63 / 16
    ensures track % 1008 / 63 == lba / 63 % 16
  {
    var q := lba / 63;
    assert track == 63 * q;
    assert q == 16 * (q / 16) + q % 16;
    DivUnique(63 * q, 1008, q / 16, 63 * (q % 16));
    DivUnique(63 * (q % 16), 63, q % 16, 0);
  }

  /** The LBA28 branch: bytes 0 to 2 of the address, and bits 24 to 27 as the head nibble. */
  function Lba28Addressing(lba: u64): (a: Addressing)
    requires lba < LBA48_THRESHOLD
    ensures a.mode == Lba28 && |a.io| == 6 && a.head < HEADS
    ensures a.io == [lba % 256, lba / 256 % 256, lba / 256 / 256 % 256, 0, 0, 0]
    ensures a.head == lba / 256 / 256 / 256
  {
    var lbaLow := lba % 0x1_0000_0000;
    assert lbaLow == lba;
    Pow2Values();
    assert Min(8, 32) == 8 && Min(4, 32) == 4;
    var b0 := GetBitRange(lbaLow, 0, 8, 32);
    var b1 := GetBitRange(lbaLow, 8, 8, 32);
    var b2 := GetBitRange(lbaLow, 16, 8, 32);
    var head := GetBitRange(lbaLow, 24, 4, 32);
    DivDiv(lba, 256, 256);
    DivDiv(lba, 256 * 256, 256);
    DivDiv(lba, 256, 256 * 256);
    DivUnique(lba / 0x100_0000, 16, 0, lba / 0x100_0000);
    Addressing(Lba28, [b0, b1, b2, 0, 0, 0], head)
  }

  /** The LBA48 branch: bytes 0 to 5 of the 64-bit address; head 0. */
  function Lba48Addressing(lba: u64): (a: Addressing)
    ensures a.mode == Lba48 && |a.io| == 6 && a.head == 0
    ensures a.io == LeBytes(lba, 6)
  {
    Pow2WideValues();
    var io := seq(6, i requires 0 <= i < 6 => GetByte(lba, i, 64));
    forall i | 0 <= i < 6
      ensures io[i] == LeBytes(lba, 6)[i]
    {
      LeBytesAt(lba, 6, i);
    }
    Addressing(Lba48, io, 0)
  }

  /** The addressing `access` chooses: 48-bit from `0x1000'0000` on, else 28-bit if the drive supports it, else CHS. */
  function ChooseAddressing(lba: u64, features: u16): (a: Addressing)
    ensures |a.io| == 6 && a.head < HEADS
    ensures a.mode == Lba48 <==> lba >= LBA48_THRESHOLD
    ensures a.mode == Lba28 <==> lba < LBA48_THRESHOLD && Bit(features, FEATURES_SUPPORTS_LBA_BIT)
  {
    if lba >= LBA48_THRESHOLD then Lba48Addressing(lba)
    else if GetBit(features, FEATURES_SUPPORTS_LBA_BIT) then Lba28Addressing(lba)
    else ChsAddressing(lba)
  }

  /**
    The sector the drive addresses for the register values, in its reading
    of each mode (in CHS a sector number of 0 names no sector, hence -1).
   */
  function AddressOf(a: Addressing): int
    requires |a.io| == 6
  {
    match a.mode
    case Chs =>
      var cylinder := a.io[1] as int + 256 * (a.io[2] as int);
      (cylinder * HEADS + a.head) * SECTORS_PER_TRACK + a.io[0] - 1
    case Lba28 => a.io[0] as int + 0x100 * (a.io[1] as int) + 0x1_0000 * (a.io[2] as int) + 0x100_0000 * (a.head as int)
    case Lba48 => LeValue(a.io)
  }

  /** With 28-bit LBA the drive addresses exactly the requested sector. */
  lemma {:induction false} Lba28RoundTrip(lba: u64)
    requires lba < LBA48_THRESHOLD
    ensures AddressOf(Lba28Addressing(lba)) == lba
  {
    var q1 := lba / 256;
    var q2 := q1 / 256;
    assert lba == 256 * q1 + lba % 256;
    assert q1 == 256 * q2 + q1 % 256;
    assert q2 == 256 * (q2 / 256) + q2 % 256;
  }

  /** With 48-bit LBA the drive addresses the requested sector modulo `2^48`. */
  lemma {:induction false} Lba48RoundTrip(lba: u64)
    ensures AddressOf(Lba48Addressing(lba)) == lba % Pow2(48)
  {
    LeValueOfLeBytes(lba, 6);
  }

  /** Cylinder, head and sector of the driver's geometry, as the ATA standard reads them. */
  lemma {:induction false} ChsRoundTrip(lba: u64)
    requires lba < SECTORS_PER_TRACK * HEADS * 0x1_0000
    ensures AddressOf(ChsAddressing(lba)) == lba
  {
    var q := lba / 63;
    var c := q / 16;
    assert lba == 63 * q + lba % 63;
    assert q == 16 * c + q % 16;
    assert c < 0x1_0000 by {
      DivDiv(lba, 63, 16);
      DivUnique(lba, 1008, c, lba - 1008 * c);
    }
    DivUnique(c, 0x1_0000, 0, c);
  }

  /**
    The cylinder is kept in a `uint16_t`, so on a drive without LBA support
    a sector `1008 * 65536` or more positions further addresses the same
    place: sector 66060288 is read from sector 0.
   */
  lemma {:induction false} ChsCylinderWraps()
    ensures AddressOf(ChooseAddressing(SECTORS_PER_TRACK * HEADS * 0x1_0000, 0)) == 0
  {
    var lba := 66060288;
    BitOfZero(FEATURES_SUPPORTS_LBA_BIT);
    assert lba / 63 == 1048576;
    assert lba / 63 / 16 == 0x1_0000;
    var a := ChsAddressing(lba);
    assert a.io[0] == 1 && a.head == 0;
  }

  /** Every mode addresses the requested sector, except past the CHS cylinder range and the 48-bit limit. */
  lemma {:induction false} AddressingRoundTrip(lba: u64, features: u16)
    requires lba < Pow2(48)
    requires !Bit(features, FEATURES_SUPPORTS_LBA_BIT) ==>
               lba >= LBA48_THRESHOLD || lba < SECTORS_PER_TRACK * HEADS * 0x1_0000
    ensures AddressOf(ChooseAddressing(lba, features)) == lba
  {
    if lba >= LBA48_THRESHOLD {
      Lba48RoundTrip(lba);
      DivUnique(lba, Pow2(48), 0, lba);
    } else if Bit(features, FEATURES_SUPPORTS_LBA_BIT) {
      Lba28RoundTrip(lba);
    } else {
      ChsRoundTrip(lba);
    }
  }

  // ---------------------------------------------------------------------
  // The register writes

  /** The bits `set_bit` adds to `0xa0`: bit 6 (LBA) and bit 4 (slave). */
  lemma {:induction false} DriveSelectBits()
    ensures SetBit(0xa0, 6, 8) == 0xe0 && SetBit(0xa0, 4, 8) == 0xb0 && SetBit(0xe0, 4, 8) == 0xf0
  {
    Pow2Values();
    assert Pow2(6) == 64 && Pow2(4) == 16;
    SetBitAdds(0xa0, 6, 8);
    SetBitAdds(0xa0, 4, 8);
    SetBitAdds(0xe0, 4, 8);
  }

  /** Or-ing a nibble into a value whose low four bits are clear adds it. */
  lemma {:induction false} OrLowNibble(hi: nat, lo: nat)
    requires hi % 16 == 0 && lo < 16
    ensures Or(hi, lo) == hi + lo
  {
    Pow2Values();
    Place(hi / 16, 4, lo);
  }

  /**
    The drive-select value: `0xa0`, with bit 6 (LBA) set unless the mode is
    CHS, bit 4 set for the slave drive, and the head nibble or-ed in.
   */
  function DriveSelectValue(mode: AddressMode, drive: DriveType, head: u8): (v: u8)
    requires head < HEADS
    ensures v == 0xa0 + (if mode != Chs then 0x40 else 0) + (if drive == Slave then 0x10 else 0) + head
  {
    Pow2Values();
    var v1 := if mode != Chs then SetBit(0xa0, 6, 8) else 0xa0;
    var v2 := if drive == Slave then SetBit(v1, 4, 8) else v1;
    DriveSelectBits();
    OrLowNibble(v2, head);
    Or(v2, head)
  }

  /** The fields of the drive-select value, read back: the head nibble, the slave bit, the LBA bit and the fixed bits 5 and 7. */
  lemma {:induction false} DriveSelectFields(mode: AddressMode, drive: DriveType, head: u8)
    requires head < HEADS
    ensures var v := DriveSelectValue(mode, drive, head);
            v % 16 == head &&
            ((v / 16) % 2 == 1 <==> drive == Slave) &&
            ((v / 64) % 2 == 1 <==> mode != Chs) &&
            (v / 32) % 2 == 1 && v / 128 == 1
  {
    var lba := if mode != Chs then 1 else 0;
    var slave := if drive == Slave then 1 else 0;
    NibbleFields(lba, slave, head);
  }

  lemma {:induction false} NibbleFields(lba: nat, slave: nat, head: nat)
    requires lba < 2 && slave < 2 && head < 16
    ensures var v := 0xa0 + 0x40 * lba + 0x10 * slave + head;
            v % 16 == head && (v / 16) % 2 == slave && (v / 64) % 2 == lba &&
            (v / 32) % 2 == 1 && v / 128 == 1
  {
    var c := 0xa0 + 0x40 * lba + 0x10 * slave;
    DivUnique(c + head, 16, c / 16, head);
    DivUnique(c + head, 32, c / 32, c % 32 + head);
    DivUnique(c + head, 64, c / 64, c % 64 + head);
    DivUnique(c + head, 128, 1, c - 128 + head);
  }

  /** The command that starts the transfer. */
  function TransferCommand(dir: Direction, mode: AddressMode): (c: u8)
    ensures c in {READ_PIO, READ_PIO_EXT, WRITE_PIO, WRITE_PIO_EXT}
    ensures (c == READ_PIO_EXT || c == WRITE_PIO_EXT) <==> mode == Lba48
    ensures (c == READ_PIO || c == READ_PIO_EXT) <==> dir == Read
  {
    match dir
    case Read => if mode == Lba48 then READ_PIO_EXT else READ_PIO
    case Write => if mode == Lba48 then WRITE_PIO_EXT else WRITE_PIO
  }

  /** The cache flush after a write. */
  function FlushCommand(mode: AddressMode): (c: u8)
    ensures c == CACHE_FLUSH_EXT <==> mode == Lba48
    ensures c == CACHE_FLUSH <==> mode != Lba48
  {
    if mode == Lba48 then CACHE_FLUSH_EXT else CACHE_FLUSH
  }

  /**
    The writes before the command: drive select; for 48-bit addressing a
    zero high sector count and address bytes 3 to 5; then the sector count
    and address bytes 0 to 2.
   */
  function SetupWrites(a: Addressing, drive: DriveType, count: u8): (ws: seq<RegWrite>)
    requires |a.io| == 6 && a.head < HEADS
    ensures |ws| == (if a.mode == Lba48 then 9 else 5)
    ensures ws[0] == RegWrite(DriveSelectReg, DriveSelectValue(a.mode, drive, a.head))
    ensures a.mode == Lba48 ==> ws[1..5] == [RegWrite(SectorCountReg, 0), RegWrite(Lba0Reg, a.io[3]),
                                             RegWrite(Lba1Reg, a.io[4]), RegWrite(Lba2Reg, a.io[5])]
    ensures ws[|ws| - 4..] == [RegWrite(SectorCountReg, count), RegWrite(Lba0Reg, a.io[0]),
                               RegWrite(Lba1Reg, a.io[1]), RegWrite(Lba2Reg, a.io[2])]
  {
    var select := [RegWrite(DriveSelectReg, DriveSelectValue(a.mode, drive, a.head))];
    var high := if a.mode == Lba48 then
        [RegWrite(SectorCountReg, 0), RegWrite(Lba0Reg, a.io[3]),
         RegWrite(Lba1Reg, a.io[4]), RegWrite(Lba2Reg, a.io[5])]
      else [];
    var low := [RegWrite(SectorCountReg, count), RegWrite(Lba0Reg, a.io[0]),
                RegWrite(Lba1Reg, a.io[1]), RegWrite(Lba2Reg, a.io[2])];
    select + high + low
  }

  /** What `access` did: its result, the registers written, the data words sent and the buffer afterwards. */
  datatype AccessOutcome = AccessOutcome(result: PollingResult, writes: seq<RegWrite>,
                                         dataOut: seq<u16>, buffer: seq<u8>)

  /**
    `Device::access(direction, lba, buffer)` as written.  `statuses[i]` is
    the status the poll before sector `i` reads and `sectors[i]` that
    sector's data words (only read when reading).  The transfer is
    `read_sectors` or `write_sectors` as they stand, so a read leaves only
    the last sector read, at the start of the buffer, and a write sends the
    buffer's first sector `count` times.
   */
  method Access(dev: Device, dir: Direction, lba: u64, buffer: seq<u8>,
                statuses: seq<u8>, sectors: seq<seq<u16>>) returns (o: AccessOutcome)
    requires |statuses| >= SectorCount(|buffer|) && |sectors| >= SectorCount(|buffer|)
    requires forall i :: 0 <= i < |sectors| ==> |sectors[i]| == SECTOR_WORDS
    ensures var count := SectorCount(|buffer|);
            var a := ChooseAddressing(lba, dev.features);
            var k := SectorsRead(count, statuses);
            var setup := SetupWrites(a, dev.driveType, count);
            match dir
            case Read =>
              o.writes == setup + [RegWrite(CommandReg, TransferCommand(Read, a.mode))] &&
              o.result == (if k < count then Poll(true, statuses[k]) else Success) &&
              o.buffer == (if k == 0 then buffer else Unpack(sectors[k - 1]) + buffer[SECTOR_BYTES..]) &&
              o.dataOut == []
            case Write =>
              o.writes == setup + [RegWrite(CommandReg, TransferCommand(Write, a.mode)),
                                   RegWrite(CommandReg, FlushCommand(a.mode))] &&
              o.result == Success &&
              |o.dataOut| == SECTOR_WORDS * count &&
              (forall i :: 0 <= i < count ==>
                 Unpack(o.dataOut[SECTOR_WORDS * i..SECTOR_WORDS * (i + 1)]) == buffer[..SECTOR_BYTES]) &&
              o.buffer == buffer
  {
    var count := SectorCount(|buffer|);
    var a := ChooseAddressing(lba, dev.features);
    var setup := SetupWrites(a, dev.driveType, count);
    var writes := setup + [RegWrite(CommandReg, TransferCommand(dir, a.mode))];
    if dir == Read {
      var result, out := ReadSectorsAsWritten(count, buffer, statuses, sectors);
      o := AccessOutcome(result, writes, [], out);
    } else {
      var (result, words) := WriteSectorsAsWritten(count, buffer);
      if result != Success {
        return AccessOutcome(result, writes, words, buffer);
      }
      if count > 0 {
        UnpackPack(buffer[..SECTOR_BYTES]);
      }
      var flush := RegWrite(CommandReg, FlushCommand(a.mode));
      o := AccessOutcome(Poll(false, 0), writes + [flush], words, buffer);
    }
  }

  /**
    `access` as evidently intended: the same register writes, with the
    corrected transfers `ReadSectors` and `WriteSectors`, so sector `i`
    goes to or comes from `buffer[512 * i ..]`.
   */
  method AccessIntended(dev: Device, dir: Direction, lba: u64, buffer: seq<u8>,
                        statuses: seq<u8>, sectors: seq<seq<u16>>) returns (o: AccessOutcome)
    requires |statuses| >= SectorCount(|buffer|) && |sectors| >= SectorCount(|buffer|)
    requires forall i :: 0 <= i < |sectors| ==> |sectors[i]| == SECTOR_WORDS
    ensures var count := SectorCount(|buffer|);
            var a := ChooseAddressing(lba, dev.features);
            var k := SectorsRead(count, statuses);
            var setup := SetupWrites(a, dev.driveType, count);
            match dir
            case Read =>
              o.writes == setup + [RegWrite(CommandReg, TransferCommand(Read, a.mode))] &&
              o.result == (if k < count then Poll(true, statuses[k]) else Success) &&
              o.buffer == Concat(sectors, k) + buffer[SECTOR_BYTES * k..] &&
              o.dataOut == []
            case Write =>
              o.writes == setup + [RegWrite(CommandReg, TransferCommand(Write, a.mode)),
                                   RegWrite(CommandReg, FlushCommand(a.mode))] &&
              o.result == Success &&
              Unpack(o.dataOut) == buffer[..SECTOR_BYTES * count] &&
              o.buffer == buffer
  {
    var count := SectorCount(|buffer|);
    var a := ChooseAddressing(lba, dev.features);
    var setup := SetupWrites(a, dev.driveType, count);
    var writes := setup + [RegWrite(CommandReg, TransferCommand(dir, a.mode))];
    if dir == Read {
      var result, out := ReadSectors(count, buffer, statuses, sectors);
      o := AccessOutcome(result, writes, [], out);
    } else {
      var (result, words) := WriteSectors(count, buffer);
      if result != Success {
        return AccessOutcome(result, writes, words, buffer);
      }
      var flush := RegWrite(CommandReg, FlushCommand(a.mode));
      o := AccessOutcome(Poll(false, 0), writes + [flush], words, buffer);
    }
  }

  /**
    `Device::read` as written: true exactly when every sector was read, and
    then the buffer starts with the last sector and is otherwise unchanged.
   */
  method ReadDisk(dev: Device, lba: u64, buffer: seq<u8>, statuses: seq<u8>, sectors: seq<seq<u16>>)
    returns (ok: bool, out: seq<u8>)
    requires |statuses| >= SectorCount(|buffer|) && |sectors| >= SectorCount(|buffer|)
    requires forall i :: 0 <= i < |sectors| ==> |sectors[i]| == SECTOR_WORDS
    ensures var count := SectorCount(|buffer|);
            ok <==> forall i :: 0 <= i < count ==> Poll(true, statuses[i]) == Success
    ensures var count := SectorCount(|buffer|);
            ok ==> out == (if count == 0 then buffer
                           else Unpack(sectors[count - 1]) + buffer[SECTOR_BYTES..])
  {
    var o := Access(dev, Read, lba, buffer, statuses, sectors);
    var count := SectorCount(|buffer|);
    var k := SectorsRead(count, statuses);
    ok := o.result == Success;
    out := o.buffer;
    assert ok <==> k == count;
    assert k == count <==> forall i :: 0 <= i < count ==> Poll(true, statuses[i]) == Success by {
      if forall i :: 0 <= i < count ==> Poll(true, statuses[i]) == Success {
        SectorsReadAll(count, statuses);
      }
    }
  }

  /** `Device::read` as evidently intended: on success the buffer holds every sector in order. */
  method ReadDiskIntended(dev: Device, lba: u64, buffer: seq<u8>, statuses: seq<u8>, sectors: seq<seq<u16>>)
    returns (ok: bool, out: seq<u8>)
    requires |statuses| >= SectorCount(|buffer|) && |sectors| >= SectorCount(|buffer|)
    requires forall i :: 0 <= i < |sectors| ==> |sectors[i]| == SECTOR_WORDS
    ensures var count := SectorCount(|buffer|);
            ok <==> forall i :: 0 <= i < count ==> Poll(true, statuses[i]) == Success
    ensures ok ==> out == Concat(sectors, SectorCount(|buffer|)) + buffer[SECTOR_BYTES * SectorCount(|buffer|)..]
  {
    var o := AccessIntended(dev, Read, lba, buffer, statuses, sectors);
    ok := o.result == Success;
    out := o.buffer;
    var count := SectorCount(|buffer|);
    if forall i :: 0 <= i < count ==> Poll(true, statuses[i]) == Success {
      SectorsReadAll(count, statuses);
    }
  }

  /**
    `Device::write` as written: reports true whatever happened, and sends
    the buffer's first sector once for every whole sector the buffer holds.
   */
  method WriteDisk(dev: Device, lba: u64, buffer: seq<u8>) returns (ok: bool, dataOut: seq<u16>)
    ensures ok
    ensures |dataOut| == SECTOR_WORDS * SectorCount(|buffer|)
    ensures forall i :: 0 <= i < SectorCount(|buffer|) ==>
              Unpack(dataOut[SECTOR_WORDS * i..SECTOR_WORDS * (i + 1)]) == buffer[..SECTOR_BYTES]
  {
    var count := SectorCount(|buffer|);
    var statuses := seq(count, _ => 0);
    var sectors := seq(count, _ => seq(SECTOR_WORDS, _ => 0));
    var o := Access(dev, Write, lba, buffer, statuses, sectors);
    dataOut := o.dataOut;
    ok := true;
  }

  /** `Device::write` as evidently intended: every whole sector of the buffer is sent, in order. */
  method WriteDiskIntended(dev: Device, lba: u64, buffer: seq<u8>) returns (ok: bool, dataOut: seq<u16>)
    ensures ok
    ensures Unpack(dataOut) == buffer[..SECTOR_BYTES * SectorCount(|buffer|)]
  {
    var count := SectorCount(|buffer|);
    var statuses := seq(count, _ => 0);
    var sectors := seq(count, _ => seq(SECTOR_WORDS, _ => 0));
    var o := AccessIntended(dev, Write, lba, buffer, statuses, sectors);
    dataOut := o.dataOut;
    ok := true;
  }
}
