/**
  The ATA PIO channel of the IDE driver (arch/i386/ide.cpp, types from
  arch/i386/ide.hpp): status flags, `poll`, and moving sectors between the
  data register and a buffer.

  Port I/O is not modelled as effects.  What a loop reads from the device
  is an input: the status `poll` reads once the drive is no longer busy,
  the 256 data words of each sector.  What the driver writes to the data
  register is an output.
 */
module Ide {
  import opened Bits
  import opened KMath

  // Bits of the Status register (STATUS_BUSY = 0x80 = 1 << 7, ...).
  const STATUS_BUSY_BIT: nat := 7
  const STATUS_DRIVE_WRITE_FAULT_BIT: nat := 5
  const STATUS_REQUEST_READY_BIT: nat := 3
  const STATUS_ERROR_BIT: nat := 0

  /** Words per sector: a sector is 512 bytes, moved 16 bits at a time. */
  const SECTOR_WORDS: nat := 256
  const SECTOR_BYTES: nat := 512

  datatype ChannelType = Primary | Secondary
  datatype DriveType = Master | Slave
  datatype InterfaceType = Ata | Atapi
  datatype Direction = Read | Write

  /** `PollingResult`. */
  datatype PollingResult = Success | Error | DriveWriteFault | RequestNotReady

  /**
    `Device`: which drive of which channel, and what its identification
    reported.  `model` is the 41-character `char` array.
   */
  datatype Device = Device(channel: ChannelType, driveType: DriveType, interfaceType: InterfaceType,
                           signature: u16, features: u16, commandSets: u32, size: u32,
                           model: seq<char>)

  /** `status & (1 << bit)` is nonzero. */
  predicate StatusHas(status: u8, bit: nat)
    requires bit < 8
  {
    GetBit(status, bit)
  }

  /**
    `Channel::poll(advanced_check)`, given the status read after
    `wait_not_busy`.  Without the advanced check it always succeeds; with
    it, the error bit wins over the write-fault bit, which wins over a
    missing request-ready bit.
   */
  function Poll(advanced: bool, status: u8): (r: PollingResult)
    ensures !advanced ==> r == Success
    ensures r == Error <==> advanced && Bit(status, 0)
    ensures r == DriveWriteFault <==> advanced && !Bit(status, 0) && Bit(status, 5)
    ensures r == RequestNotReady <==>
              advanced && !Bit(status, 0) && !Bit(status, 5) && !Bit(status, 3)
  {
    if !advanced then Success
    else if StatusHas(status, STATUS_ERROR_BIT) then Error
    else if StatusHas(status, STATUS_DRIVE_WRITE_FAULT_BIT) then DriveWriteFault
    else if !StatusHas(status, STATUS_REQUEST_READY_BIT) then RequestNotReady
    else Success
  }

  // ---------------------------------------------------------------------
  // The data register carries 16-bit words, low byte first.

  /** The bytes of data words, each word low byte first. */
  function Unpack(words: seq<u16>): (bytes: seq<u8>)
    ensures |bytes| == 2 * |words|
  {
    if |words| == 0 then []
    else [words[0] % 256, words[0] / 256] + Unpack(words[1..])
  }

  /** The data words of an even number of bytes, each word low byte first. */
  function Pack(bytes: seq<u8>): (words: seq<u16>)
    requires |bytes| % 2 == 0
    ensures 2 * |words| == |bytes|
  {
    if |bytes| == 0 then []
    else [bytes[0] as int + 256 * bytes[1] as int] + Pack(bytes[2..])
  }

  /** Byte `2j` of an unpacked sequence is the low byte of word `j`, byte `2j + 1` the high byte. */
  lemma {:induction false} UnpackAt(words: seq<u16>, j: nat)
    requires j < |words|
    ensures Unpack(words)[2 * j] == words[j] % 256
    ensures Unpack(words)[2 * j + 1] == words[j] / 256
    decreases j
  {
    if j > 0 {
      UnpackAt(words[1..], j - 1);
      assert Unpack(words)[2 * j] == Unpack(words[1..])[2 * (j - 1)];
      assert Unpack(words)[2 * j + 1] == Unpack(words[1..])[2 * (j - 1) + 1];
    }
  }

  /** Unpacking distributes over concatenation. */
  lemma {:induction false} UnpackAppend(a: seq<u16>, b: seq<u16>)
    ensures Unpack(a + b) == Unpack(a) + Unpack(b)
    decreases |a|
  {
    if |a| > 0 {
      assert (a + b)[0] == a[0];
      assert (a + b)[1..] == a[1..] + b;
      UnpackAppend(a[1..], b);
      var h := [a[0] % 256, a[0] / 256];
      assert Unpack(a + b) == h + Unpack(a[1..] + b);
      assert Unpack(a) == h + Unpack(a[1..]);
      assert h + (Unpack(a[1..]) + Unpack(b)) == (h + Unpack(a[1..])) + Unpack(b);
    } else {
      assert a + b == b;
    }
  }

  /** Packing what was unpacked gives the words back. */
  lemma {:induction false} PackUnpack(words: seq<u16>)
    ensures Pack(Unpack(words)) == words
    decreases |words|
  {
    if |words| > 0 {
      var w := words[0];
      assert Unpack(words)[2..] == Unpack(words[1..]);
      assert (w % 256) + 256 * (w / 256) == w;
      PackUnpack(words[1..]);
    }
  }

  /** Unpacking what was packed gives the bytes back. */
  lemma {:induction false} UnpackPack(bytes: seq<u8>)
    requires |bytes| % 2 == 0
    ensures Unpack(Pack(bytes)) == bytes
    decreases |bytes|
  {
    if |bytes| > 0 {
      var w := bytes[0] as int + 256 * bytes[1] as int;
      DivUnique(w, 256, bytes[1], bytes[0]);
      assert Pack(bytes)[1..] == Pack(bytes[2..]);
      UnpackPack(bytes[2..]);
      assert bytes == [bytes[0], bytes[1]] + bytes[2..];
    }
  }

  /** `get_bit_range(word, 0, 8)` on a `uint16_t`: its low byte. */
  function LowByte(word: u16): (b: u8)
    ensures b == word % 256
  {
    Pow2Values();
    GetBitRange(word, 0, 8, 16)
  }

  /** `get_bit_range(word, 8, 8)` on a `uint16_t`: its high byte. */
  function HighByte(word: u16): (b: u8)
    ensures b == word / 256
  {
    Pow2Values();
    var q := word / 256;
    assert q < 256 by {
      DivUnique(word, 256, q, word % 256);
    }
    assert Min(8, 16) == 8;
    var r := GetBitRange(word, 8, 8, 16);
    assert r == q % 256;
    DivUnique(q, 256, 0, q);
    r
  }

  /** `buffer[2j] | (buffer[2j + 1] << 8)`, converted to `uint16_t` by `write_data`. */
  function JoinBytes(lo: u8, hi: u8): (w: u16)
    ensures w == lo + 256 * hi
  {
    Pow2Values();
    Place(hi, 8, lo);
    OrCommutes(hi * Pow2(8), lo);
    Or(lo, hi * Pow2(8))
  }

  // ---------------------------------------------------------------------
  // read_sectors and write_sectors

  /**
    How many sectors `read_sectors` reads before stopping: the index of the
    first sector whose poll fails, or `count` when none does.
   */
  function SectorsRead(count: nat, statuses: seq<u8>): (k: nat)
    requires |statuses| >= count
    ensures k <= count
    ensures forall i :: 0 <= i < k ==> Poll(true, statuses[i]) == Success
    ensures k < count ==> Poll(true, statuses[k]) != Success
    decreases count
  {
    if count == 0 then 0
    else
      var k := SectorsRead(count - 1, statuses);
      if k < count - 1 then k
      else if Poll(true, statuses[count - 1]) == Success then count
      else count - 1
  }

  /** The bytes of sectors `0..k` laid end to end. */
  function Concat(sectors: seq<seq<u16>>, k: nat): (bytes: seq<u8>)
    requires k <= |sectors|
    requires forall i :: 0 <= i < |sectors| ==> |sectors[i]| == SECTOR_WORDS
    ensures |bytes| == SECTOR_BYTES * k
  {
    if k == 0 then [] else Concat(sectors, k - 1) + Unpack(sectors[k - 1])
  }

  /** The sector read so far, as `read_sectors` stores it: byte `2j` and `2j + 1` from word `j`. */
  method ReadSectorWords(words: seq<u16>) returns (chunk: seq<u8>)
    requires |words| == SECTOR_WORDS
    ensures chunk == Unpack(words)
  {
    chunk := [];
    var j := 0;
    while j < SECTOR_WORDS
      invariant 0 <= j <= SECTOR_WORDS
      invariant chunk == Unpack(words[..j])
    {
      var lo := LowByte(words[j]);
      var hi := HighByte(words[j]);
      assert words[..j + 1] == words[..j] + [words[j]];
      UnpackAppend(words[..j], [words[j]]);
      chunk := chunk + [lo, hi];
      j := j + 1;
    }
    assert words[..SECTOR_WORDS] == words;
  }

  /**
    `Channel::read_sectors(sector_count, buffer)` AS WRITTEN: every sector's
    256 words go to `buffer[2j]` and `buffer[2j + 1]`, the same first 512
    bytes each time, so after `k` successful sectors the buffer starts with
    sector `k - 1` and nothing else in it has changed.
   */
  method ReadSectorsAsWritten(count: u8, buffer: seq<u8>, statuses: seq<u8>, sectors: seq<seq<u16>>)
    returns (result: PollingResult, out: seq<u8>)
    requires |buffer| >= SECTOR_BYTES * count
    requires |statuses| >= count && |sectors| >= count
    requires forall i :: 0 <= i < |sectors| ==> |sectors[i]| == SECTOR_WORDS
    ensures var k := SectorsRead(count, statuses);
            result == (if k < count then Poll(true, statuses[k]) else Success) &&
            out == (if k == 0 then buffer else Unpack(sectors[k - 1]) + buffer[SECTOR_BYTES..])
  {
    out := buffer;
    var i := 0;
    while i < count
      invariant 0 <= i <= count
      invariant SectorsRead(i, statuses) == i
      invariant out == (if i == 0 then buffer else Unpack(sectors[i - 1]) + buffer[SECTOR_BYTES..])
    {
      var r := Poll(true, statuses[i]);
      if r != Success {
        SectorsReadStops(count, statuses, i);
        return r, out;
      }
      var chunk := ReadSectorWords(sectors[i]);
      out := chunk + out[SECTOR_BYTES..];
      i := i + 1;
    }
    return Success, out;
  }

  /**
    `read_sectors` as evidently intended: sector `i` goes to
    `buffer[512 * i ..]`, so after `k` successful sectors the buffer starts
    with all `k` of them in order.
   */
  method ReadSectors(count: u8, buffer: seq<u8>, statuses: seq<u8>, sectors: seq<seq<u16>>)
    returns (result: PollingResult, out: seq<u8>)
    requires |buffer| >= SECTOR_BYTES * count
    requires |statuses| >= count && |sectors| >= count
    requires forall i :: 0 <= i < |sectors| ==> |sectors[i]| == SECTOR_WORDS
    ensures var k := SectorsRead(count, statuses);
            result == (if k < count then Poll(true, statuses[k]) else Success) &&
            out == Concat(sectors, k) + buffer[SECTOR_BYTES * k..]
  {
    out := buffer;
    var i := 0;
    while i < count
      invariant 0 <= i <= count
      invariant SectorsRead(i, statuses) == i
      invariant out == Concat(sectors, i) + buffer[SECTOR_BYTES * i..]
    {
      var r := Poll(true, statuses[i]);
      if r != Success {
        SectorsReadStops(count, statuses, i);
        return r, out;
      }
      var chunk := ReadSectorWords(sectors[i]);
      out := out[..SECTOR_BYTES * i] + chunk + out[SECTOR_BYTES * (i + 1)..];
      i := i + 1;
    }
    return Success, out;
  }

  /** If the first `i` polls succeed and poll `i` fails, the reading stops at `i`. */
  lemma {:induction false} SectorsReadStops(count: nat, statuses: seq<u8>, i: nat)
    requires i < count <= |statuses|
    requires SectorsRead(i, statuses) == i && Poll(true, statuses[i]) != Success
    ensures SectorsRead(count, statuses) == i
    decreases count
  {
    if count > i + 1 {
      SectorsReadStops(count - 1, statuses, i);
    }
  }

  /** If every poll succeeds, every sector is read. */
  lemma {:induction false} SectorsReadAll(count: nat, statuses: seq<u8>)
    requires count <= |statuses|
    requires forall i :: 0 <= i < count ==> Poll(true, statuses[i]) == Success
    ensures SectorsRead(count, statuses) == count
    decreases count
  {
    if count > 0 {
      SectorsReadAll(count - 1, statuses);
    }
  }

  /**
    The sector words `write_sectors` sends AS WRITTEN: `count` times the
    first 512 bytes of the buffer.  It never looks at the status (it polls
    without the advanced check) and always reports success.
   */
  function WriteSectorsAsWritten(count: u8, buffer: seq<u8>): (r: (PollingResult, seq<u16>))
    requires |buffer| >= SECTOR_BYTES * count
    ensures r.0 == Success
    ensures |r.1| == SECTOR_WORDS * count
    ensures count > 0 ==> forall i :: 0 <= i < count ==>
              r.1[SECTOR_WORDS * i..SECTOR_WORDS * (i + 1)] == Pack(buffer[..SECTOR_BYTES])
  {
    var first := if count == 0 then [] else PackSector(buffer, 0);
    forall i | 0 <= i < count
      ensures Repeat(first, count as nat)[SECTOR_WORDS * i..SECTOR_WORDS * (i + 1)] == first
    {
      RepeatAt(first, count as nat, i);
    }
    (Success, Repeat(first, count as nat))
  }

  /** `write_sectors` as evidently intended: sector `i` is taken from `buffer[512 * i ..]`. */
  function WriteSectors(count: u8, buffer: seq<u8>): (r: (PollingResult, seq<u16>))
    requires |buffer| >= SECTOR_BYTES * count
    ensures r.0 == Success
    ensures Unpack(r.1) == buffer[..SECTOR_BYTES * count]
  {
    var words := PackSectors(buffer, count);
    UnpackPackSectors(buffer, count);
    (Success, words)
  }

  /** The inner loop of `write_sectors` on the 512 bytes at `offset`. */
  function PackSector(buffer: seq<u8>, offset: nat): (words: seq<u16>)
    requires offset + SECTOR_BYTES <= |buffer|
    ensures words == Pack(buffer[offset..offset + SECTOR_BYTES])
  {
    PackJoin(buffer[offset..offset + SECTOR_BYTES]);
    PackWith(buffer[offset..offset + SECTOR_BYTES])
  }

  /** `Pack`, with each word computed the way `write_sectors` computes it. */
  function PackWith(bytes: seq<u8>): seq<u16>
    requires |bytes| % 2 == 0
  {
    if |bytes| == 0 then [] else [JoinBytes(bytes[0], bytes[1])] + PackWith(bytes[2..])
  }

  lemma {:induction false} PackJoin(bytes: seq<u8>)
    requires |bytes| % 2 == 0
    ensures PackWith(bytes) == Pack(bytes)
    decreases |bytes|
  {
    if |bytes| > 0 {
      PackJoin(bytes[2..]);
    }
  }

  /** `n` copies of `words`, end to end. */
  function Repeat(words: seq<u16>, n: nat): (r: seq<u16>)
    ensures |r| == |words| * n
  {
    if n == 0 then [] else Repeat(words, n - 1) + words
  }

  /** Copy `i` of `Repeat(words, n)` is `words`. */
  lemma {:induction false} RepeatAt(words: seq<u16>, n: nat, i: nat)
    requires i < n
    ensures Repeat(words, n)[|words| * i..|words| * (i + 1)] == words
    decreases n
  {
    var r := Repeat(words, n);
    assert r == Repeat(words, n - 1) + words;
    if i < n - 1 {
      RepeatAt(words, n - 1, i);
      assert |words| * (i + 1) <= |words| * (n - 1);
    } else {
      assert |words| * i == |Repeat(words, n - 1)|;
    }
  }

  /** Every sector of the buffer, packed, end to end. */
  function PackSectors(buffer: seq<u8>, count: nat): (words: seq<u16>)
    requires |buffer| >= SECTOR_BYTES * count
  {
    if count == 0 then [] else PackSectors(buffer, count - 1) + PackSector(buffer, SECTOR_BYTES * (count - 1))
  }

  lemma {:induction false} UnpackPackSectors(buffer: seq<u8>, count: nat)
    requires |buffer| >= SECTOR_BYTES * count
    ensures Unpack(PackSectors(buffer, count)) == buffer[..SECTOR_BYTES * count]
    decreases count
  {
    if count > 0 {
      var o := SECTOR_BYTES * (count - 1);
      assert o + SECTOR_BYTES == SECTOR_BYTES * count;
      var prev := PackSectors(buffer, count - 1);
      var chunk := buffer[o..o + SECTOR_BYTES];
      var last := PackSector(buffer, o);
      assert PackSectors(buffer, count) == prev + last;
      UnpackPackSectors(buffer, count - 1);
      UnpackAppend(prev, last);
      UnpackPack(chunk);
      PrefixExtend(buffer, o, SECTOR_BYTES);
    }
  }

  lemma PrefixExtend(buffer: seq<u8>, o: nat, n: nat)
    requires o + n <= |buffer|
    ensures buffer[..o] + buffer[o..o + n] == buffer[..o + n]
  {
  }

  /**
    The two readings differ as soon as two sectors are read: the code as
    written leaves only the second sector, at the start of the buffer.
   */
  lemma {:induction false} ReadSectorsLosesData(buffer: seq<u8>, s0: seq<u16>, s1: seq<u16>)
    requires |buffer| >= 2 * SECTOR_BYTES
    requires |s0| == SECTOR_WORDS && |s1| == SECTOR_WORDS && s0 != s1
    ensures Concat([s0, s1], 2) + buffer[2 * SECTOR_BYTES..] !=
            Unpack(s1) + buffer[SECTOR_BYTES..]
  {
    var intended := Concat([s0, s1], 2) + buffer[2 * SECTOR_BYTES..];
    var asWritten := Unpack(s1) + buffer[SECTOR_BYTES..];
    assert Concat([s0, s1], 1) == Unpack(s0);
    assert intended[..SECTOR_BYTES] == Unpack(s0);
    assert asWritten[..SECTOR_BYTES] == Unpack(s1);
    PackUnpack(s0);
    PackUnpack(s1);
  }

  /** Written as in the source, the second sector sent holds the buffer's first 512 bytes. */
  lemma {:induction false} WriteSectorsAsWrittenSecond(buffer: seq<u8>)
    requires |buffer| >= 2 * SECTOR_BYTES
    ensures |WriteSectorsAsWritten(2, buffer).1| == 2 * SECTOR_WORDS
    ensures Unpack(WriteSectorsAsWritten(2, buffer).1)[SECTOR_BYTES..2 * SECTOR_BYTES] == buffer[..SECTOR_BYTES]
  {
    var asWritten := WriteSectorsAsWritten(2, buffer).1;
    var w0 := asWritten[..SECTOR_WORDS];
    var w1 := asWritten[SECTOR_WORDS..];
    assert w1 == Pack(buffer[..SECTOR_BYTES]);
    assert asWritten == w0 + w1;
    UnpackAppend(w0, w1);
    UnpackPack(buffer[..SECTOR_BYTES]);
  }

  /** The same for writing: two different sectors go out as two copies of the first. */
  lemma {:induction false} WriteSectorsRepeatsFirst(buffer: seq<u8>)
    requires |buffer| >= 2 * SECTOR_BYTES
    requires buffer[..SECTOR_BYTES] != buffer[SECTOR_BYTES..2 * SECTOR_BYTES]
    ensures WriteSectorsAsWritten(2, buffer).1 != WriteSectors(2, buffer).1
  {
    var intended := WriteSectors(2, buffer).1;
    assert Unpack(intended)[SECTOR_BYTES..2 * SECTOR_BYTES] == buffer[SECTOR_BYTES..2 * SECTOR_BYTES];
    WriteSectorsAsWrittenSecond(buffer);
  }
}
