/**
  Finding the drives of an IDE controller (arch/i386/ide.cpp):
  `Device::identify`, `Device::get_model` and `ide::init`.

  What `identify` reads from the channel is an `IdentifyInput` record: the
  status right after the IDENTIFY command, the statuses its `for (;;)`
  loop reads, the LBA1/LBA2 registers, the status read after
  `wait_request_ready`, the error register and the 256 identification
  words.  Characters of the model string are the byte values `0..255`.
 */
module IdeIdentify {
  import opened Bits
  import opened Ide
  import opened IdeAccess
  import StringViews
  import InplaceVectors

  const IDENTIFY: u8 := 0xec
  const IDENTIFY_PACKET: u8 := 0xa1

  // Word offsets in the identification space.
  const IDENT_DEVICE_TYPE: nat := 0
  const IDENT_MODEL: nat := 27
  const IDENT_FEATURES: nat := 49
  const IDENT_MAX_LBA: nat := 60
  const IDENT_COMMAND_SETS: nat := 82
  const IDENT_MAX_LBA_EXT: nat := 100

  /** `COMMAND_SETS_USES_48_BIT` is `1 << 26`. */
  const COMMAND_SETS_USES_48_BIT_BIT: nat := 26

  /** Signatures in LBA1/LBA2 of a drive that aborts IDENTIFY because it is a packet device. */
  const ATAPI_SIGNATURE: u16 := 0xeb14
  const SATAPI_SIGNATURE: u16 := 0x9669

  /** `char model[41]`. */
  const MODEL_SIZE: nat := 41
  const MODEL_WORDS: nat := 20

  datatype IdentifyStatus = IdentifySuccess | NoDevice | UnknownDeviceType | RequestError

  /** `IdentifyResult`: the status and, for `RequestError`, the error register. */
  datatype IdentifyResult = IdentifyResult(status: IdentifyStatus, errorByte: u8)

  datatype IdentifyInput = IdentifyInput(
    firstStatus: u8,
    loopStatuses: seq<u8>,
    lba1: u8, lba2: u8,
    readyStatus: u8,
    errorByte: u8,
    words: seq<u16>)

  /** The fresh `Device(channel_type, drive_type)`: ATA, every number 0, an empty model. */
  function NewDevice(channel: ChannelType, drive: DriveType): (d: Device)
    ensures d.channel == channel && d.driveType == drive && d.interfaceType == Ata
    ensures d.signature == 0 && d.features == 0 && d.commandSets == 0 && d.size == 0
    ensures |d.model| == MODEL_SIZE && forall i :: 0 <= i < MODEL_SIZE ==> d.model[i] == '\0'
  {
    Device(channel, drive, Ata, 0, 0, 0, 0, seq(MODEL_SIZE, _ => '\0'))
  }

  // ---------------------------------------------------------------------
  // Waiting for the drive

  /** The identify loop stops on the error bit, or once the drive is not busy and has data ready. */
  predicate LoopExits(status: u8)
  {
    Bit(status, STATUS_ERROR_BIT) ||
    (!Bit(status, STATUS_BUSY_BIT) && Bit(status, STATUS_REQUEST_READY_BIT))
  }

  /** The `for (;;)` loop's last iteration: the first status it stops on. */
  method SpinUntilAnswered(statuses: seq<u8>) returns (i: nat)
    requires exists j :: 0 <= j < |statuses| && LoopExits(statuses[j])
    ensures i < |statuses| && LoopExits(statuses[i])
    ensures forall j :: 0 <= j < i ==> !LoopExits(statuses[j])
  {
    i := 0;
    while !(GetBit(statuses[i], STATUS_ERROR_BIT) ||
            (!GetBit(statuses[i], STATUS_BUSY_BIT) && GetBit(statuses[i], STATUS_REQUEST_READY_BIT)))
      invariant i < |statuses|
      invariant forall j :: 0 <= j < i ==> !LoopExits(statuses[j])
      decreases |statuses| - i
    {
      i := i + 1;
    }
  }

  // ---------------------------------------------------------------------
  // Reading the identification words

  /** `get_identification_uint32(offset)`: word `offset + 1` above word `offset`, kept to 32 bits. */
  function IdentU32(words: seq<u16>, offset: nat): (x: u32)
    requires offset + 1 < |words|
    ensures x % 0x1_0000 == words[offset] && x / 0x1_0000 == words[offset + 1]
  {
    var hi: nat, lo: nat := words[offset + 1], words[offset];
    Join16(hi, lo);
    Or(hi * 0x1_0000, lo) % 0x1_0000_0000
  }

  /** The characters of the first `n` model words, each word's high byte first. */
  function ModelCharsPrefix(words: seq<u16>, n: nat): (cs: seq<char>)
    requires |words| == SECTOR_WORDS && n <= MODEL_WORDS
    ensures |cs| == 2 * n
  {
    if n == 0 then []
    else
      var w := words[IDENT_MODEL + n - 1];
      ModelCharsPrefix(words, n - 1) + [(w / 256) as char, (w % 256) as char]
  }

  /** The 40 model characters. */
  function ModelChars(words: seq<u16>): (cs: seq<char>)
    requires |words| == SECTOR_WORDS
    ensures |cs| == 2 * MODEL_WORDS
  {
    ModelCharsPrefix(words, MODEL_WORDS)
  }

  lemma {:induction false} ModelCharsNext(words: seq<u16>, i: nat)
    requires |words| == SECTOR_WORDS && i < MODEL_WORDS
    ensures ModelCharsPrefix(words, i + 1) ==
            ModelCharsPrefix(words, i) + [(words[IDENT_MODEL + i] / 256) as char, (words[IDENT_MODEL + i] % 256) as char]
  {
  }

  lemma {:induction false} ModelCharsPrefixAt(words: seq<u16>, n: nat, i: nat)
    requires |words| == SECTOR_WORDS && i < n <= MODEL_WORDS
    ensures ModelCharsPrefix(words, n)[2 * i] == (words[IDENT_MODEL + i] / 256) as char
    ensures ModelCharsPrefix(words, n)[2 * i + 1] == (words[IDENT_MODEL + i] % 256) as char
    decreases n
  {
    if i < n - 1 {
      ModelCharsPrefixAt(words, n - 1, i);
    }
  }

  /** Word `27 + i` holds characters `2i` (its high byte) and `2i + 1` (its low byte). */
  lemma {:induction false} ModelCharsAt(words: seq<u16>, i: nat)
    requires |words| == SECTOR_WORDS && i < MODEL_WORDS
    ensures ModelChars(words)[2 * i] == (words[IDENT_MODEL + i] / 256) as char
    ensures ModelChars(words)[2 * i + 1] == (words[IDENT_MODEL + i] % 256) as char
  {
    ModelCharsPrefixAt(words, MODEL_WORDS, i);
  }

  /** The index of the last character that is not a space, or 0 when there is none. */
  function LastNonSpace(cs: seq<char>): (k: nat)
    ensures |cs| > 0 ==> k < |cs|
    ensures k > 0 ==> k < |cs| && cs[k] != ' '
    ensures forall j :: k < j < |cs| ==> cs[j] == ' '
    ensures k == 0 && |cs| > 0 && cs[0] == ' ' ==> forall j :: 0 <= j < |cs| ==> cs[j] == ' '
  {
    if |cs| == 0 then 0
    else if cs[|cs| - 1] != ' ' then |cs| - 1
    else LastNonSpace(cs[..|cs| - 1])
  }

  /** The model array as `identify` leaves it: the characters, with a NUL after the last non-space one. */
  function StoredModel(cs: seq<char>): (model: seq<char>)
    requires |cs| == 2 * MODEL_WORDS
    ensures |model| == MODEL_SIZE
  {
    var k := LastNonSpace(cs);
    (cs + ['\0'])[k + 1 := '\0']
  }

  /** The two characters of a model word, read with `get_bit_range`: the high byte, then the low byte. */
  method WordChars(w: u16) returns (a: char, b: char)
    ensures a == (w / 256) as char && b == (w % 256) as char
  {
    a := HighByte(w) as char;
    b := LowByte(w) as char;
  }

  /**
    The model loop of `identify`: swaps the two characters of each word,
    remembers the last non-space one, and ends the string after it.
   */
  method DecodeModel(words: seq<u16>, model0: seq<char>) returns (model: seq<char>)
    requires |words| == SECTOR_WORDS && |model0| == MODEL_SIZE && model0[MODEL_SIZE - 1] == '\0'
    ensures model == StoredModel(ModelChars(words))
  {
    model := model0;
    var last := 0;
    var i := 0;
    while i < MODEL_WORDS
      invariant 0 <= i <= MODEL_WORDS
      invariant model == ModelCharsPrefix(words, i) + model0[2 * i..]
      invariant last == LastNonSpace(ModelCharsPrefix(words, i))
    {
      var a, b := WordChars(words[IDENT_MODEL + i]);
      DecodeModelStep(words, model0, i, model, last);
      if b != ' ' {
        last := 2 * i + 1;
      } else if a != ' ' {
        last := 2 * i;
      }
      model := model[2 * i := a][2 * i + 1 := b];
      i := i + 1;
    }
    assert model0[2 * MODEL_WORDS..] == ['\0'];
    model := model[last + 1 := '\0'];
  }

  /** One turn of the model loop keeps the copied prefix and the last non-space index up to date. */
  lemma {:induction false} DecodeModelStep(words: seq<u16>, model0: seq<char>, i: nat, model: seq<char>, last: nat)
    requires |words| == SECTOR_WORDS && |model0| == MODEL_SIZE && i < MODEL_WORDS
    requires model == ModelCharsPrefix(words, i) + model0[2 * i..]
    requires last == LastNonSpace(ModelCharsPrefix(words, i))
    ensures var a := (words[IDENT_MODEL + i] / 256) as char;
            var b := (words[IDENT_MODEL + i] % 256) as char;
            model[2 * i := a][2 * i + 1 := b] == ModelCharsPrefix(words, i + 1) + model0[2 * (i + 1)..] &&
            (if b != ' ' then 2 * i + 1 else if a != ' ' then 2 * i else last) ==
              LastNonSpace(ModelCharsPrefix(words, i + 1))
  {
    var a := (words[IDENT_MODEL + i] / 256) as char;
    var b := (words[IDENT_MODEL + i] % 256) as char;
    var prefix := ModelCharsPrefix(words, i);
    ModelCharsNext(words, i);
    LastNonSpaceStep(prefix, a, b);
    ModelStep(prefix, model0, a, b);
  }

  /** Copying two more characters over the initial array. */
  lemma {:induction false} ModelStep(prefix: seq<char>, model0: seq<char>, a: char, b: char)
    requires |prefix| + 2 <= |model0|
    ensures (prefix + model0[|prefix|..])[|prefix| := a][|prefix| + 1 := b] ==
            prefix + [a, b] + model0[|prefix| + 2..]
  {
  }

  /** Two more characters: the last non-space one is the later of them that is not a space, if any. */
  lemma {:induction false} LastNonSpaceStep(prefix: seq<char>, a: char, b: char)
    ensures LastNonSpace(prefix + [a, b]) ==
              if b != ' ' then |prefix| + 1 else if a != ' ' then |prefix| else LastNonSpace(prefix)
  {
    var s := prefix + [a, b];
    assert s[..|s| - 1] == prefix + [a];
    assert (prefix + [a])[..|prefix|] == prefix;
  }

  /** The index of the first NUL in `model`, or its length when there is none. */
  function NulIndex(model: seq<char>): (n: nat)
    ensures n <= |model|
    ensures forall j :: 0 <= j < n ==> model[j] != '\0'
    ensures n < |model| ==> model[n] == '\0'
  {
    if |model| == 0 || model[0] == '\0' then 0 else 1 + NulIndex(model[1..])
  }

  /** `Device::get_model`: a view of the model up to its first NUL, or all 41 characters. */
  method GetModel(dev: Device) returns (v: StringViews.StringView)
    ensures v.Valid() && v.mem == dev.model && v.start == 0
    ensures v.size == NulIndex(dev.model)
  {
    var length := 0;
    while length < |dev.model| && dev.model[length] != '\0'
      invariant length <= |dev.model|
      invariant forall j :: 0 <= j < length ==> dev.model[j] != '\0'
    {
      length := length + 1;
    }
    NulIndexIsFirst(dev.model, length);
    v := StringViews.FromPointer(dev.model, 0, length);
  }

  /** A position before which there is no NUL and at which there is one (or the end) is the first NUL. */
  lemma {:induction false} NulIndexIsFirst(model: seq<char>, n: nat)
    requires n <= |model|
    requires forall j :: 0 <= j < n ==> model[j] != '\0'
    requires n < |model| ==> model[n] == '\0'
    ensures NulIndex(model) == n
  {
  }

  /**
    The model read back is the identified string without its trailing
    spaces, provided it holds no NUL of its own; all following characters
    were spaces.  A model of nothing but spaces read back as one space.
   */
  lemma {:induction false} ModelTrimsTrailingSpaces(cs: seq<char>)
    requires |cs| == 2 * MODEL_WORDS
    requires forall j :: 0 <= j < |cs| ==> cs[j] != '\0'
    ensures var model := StoredModel(cs);
            var n := NulIndex(model);
            n == LastNonSpace(cs) + 1 &&
            model[..n] == cs[..n] &&
            (forall j :: n <= j < |cs| ==> cs[j] == ' ') &&
            (n > 1 || cs[0] != ' ' ==> cs[n - 1] != ' ')
  {
    var model := StoredModel(cs);
    var k := LastNonSpace(cs);
    NulIndexIsFirst(model, k + 1);
  }

  /** Blank models quirk: forty spaces read back as `" "`, not as an empty string. */
  lemma {:induction false} BlankModelIsOneSpace(cs: seq<char>)
    requires |cs| == 2 * MODEL_WORDS
    requires forall j :: 0 <= j < |cs| ==> cs[j] == ' '
    ensures StoredModel(cs)[..NulIndex(StoredModel(cs))] == " "
  {
    ModelTrimsTrailingSpaces(cs);
  }

  // ---------------------------------------------------------------------
  // identify

  /** The drive-select value `identify` writes: `0xa0`, or `0xb0` for the slave. */
  function IdentifySelect(drive: DriveType): (v: u8)
    ensures v == DriveSelectValue(Chs, drive, 0)
  {
    match drive
    case Master => 0xa0
    case Slave => 0xa0 + 0x10
  }

  /** What `identify` did: its result, the device afterwards and the registers written. */
  datatype IdentifyOutcome = IdentifyOutcome(result: IdentifyResult, device: Device, writes: seq<RegWrite>)

  /**
    `Device::identify()`.  A drive whose loop never stops is outside the
    model: the loop statuses must contain one it stops on.
   */
  method Identify(dev: Device, probe: IdentifyInput) returns (o: IdentifyOutcome)
    requires |probe.words| == SECTOR_WORDS && |dev.model| == MODEL_SIZE && dev.model[MODEL_SIZE - 1] == '\0'
    requires probe.firstStatus != 0 ==>
               exists j :: 0 <= j < |probe.loopStatuses| && LoopExits(probe.loopStatuses[j])
    ensures o.device.channel == dev.channel && o.device.driveType == dev.driveType
    ensures o.result.status == NoDevice <==> probe.firstStatus == 0
    ensures probe.firstStatus == 0 ==> o.device == dev && o.result.errorByte == 0
    ensures |o.writes| >= 2 && o.writes[..2] == [RegWrite(DriveSelectReg, IdentifySelect(dev.driveType)), RegWrite(CommandReg, IDENTIFY)]
    ensures probe.firstStatus != 0 ==>
              var k := FirstExit(probe.loopStatuses);
              var aborted := Bit(probe.loopStatuses[k], STATUS_ERROR_BIT);
              var signature := JoinBytes(probe.lba1, probe.lba2);
              var packet := signature == ATAPI_SIGNATURE || signature == SATAPI_SIGNATURE;
              (o.result.status == UnknownDeviceType <==> aborted && !packet) &&
              (o.result.status == UnknownDeviceType ==> o.result.errorByte == 0) &&
              (o.result.status != UnknownDeviceType ==>
                 o.device.interfaceType == (if aborted then Atapi else Ata) &&
                 o.writes[2..] == (if aborted then [RegWrite(CommandReg, IDENTIFY_PACKET)] else []) &&
                 (o.result.status == RequestError <==> Bit(probe.readyStatus, STATUS_ERROR_BIT)) &&
                 (o.result.status == RequestError ==> o.result.errorByte == probe.errorByte))
    ensures o.result.status == IdentifySuccess ==> IdentifiedAs(o.device, probe.words)
  {
    var writes := [RegWrite(DriveSelectReg, IdentifySelect(dev.driveType)), RegWrite(CommandReg, IDENTIFY)];
    if probe.firstStatus == 0 {
      return IdentifyOutcome(IdentifyResult(NoDevice, 0), dev, writes);
    }
    var d := dev.(interfaceType := Ata);
    var k := SpinUntilAnswered(probe.loopStatuses);
    FirstExitIsFirst(probe.loopStatuses, k);
    if GetBit(probe.loopStatuses[k], STATUS_ERROR_BIT) {
      var signature := JoinBytes(probe.lba1, probe.lba2);
      if signature == ATAPI_SIGNATURE || signature == SATAPI_SIGNATURE {
        d := d.(interfaceType := Atapi);
      } else {
        return IdentifyOutcome(IdentifyResult(UnknownDeviceType, 0), d, writes);
      }
      writes := writes + [RegWrite(CommandReg, IDENTIFY_PACKET)];
    }
    if GetBit(probe.readyStatus, STATUS_ERROR_BIT) {
      return IdentifyOutcome(IdentifyResult(RequestError, probe.errorByte), d, writes);
    }
    var words := probe.words;
    var commandSets := IdentU32(words, IDENT_COMMAND_SETS);
    var size := if GetBit(commandSets, COMMAND_SETS_USES_48_BIT_BIT) then IdentU32(words, IDENT_MAX_LBA_EXT)
                else IdentU32(words, IDENT_MAX_LBA);
    var model := DecodeModel(words, d.model);
    d := d.(signature := words[IDENT_DEVICE_TYPE], features := words[IDENT_FEATURES],
            commandSets := commandSets, size := size, model := model);
    o := IdentifyOutcome(IdentifyResult(IdentifySuccess, 0), d, writes);
  }

  /** The index of the first status the identify loop stops on. */
  function FirstExit(statuses: seq<u8>): (k: nat)
    requires exists j :: 0 <= j < |statuses| && LoopExits(statuses[j])
    ensures k < |statuses| && LoopExits(statuses[k])
    ensures forall j :: 0 <= j < k ==> !LoopExits(statuses[j])
  {
    if LoopExits(statuses[0]) then 0
    else
      assert forall j :: 0 <= j < |statuses| - 1 ==> statuses[1..][j] == statuses[j + 1];
      1 + FirstExit(statuses[1..])
  }

  lemma {:induction false} FirstExitIsFirst(statuses: seq<u8>, k: nat)
    requires k < |statuses| && LoopExits(statuses[k])
    requires forall j :: 0 <= j < k ==> !LoopExits(statuses[j])
    ensures FirstExit(statuses) == k
  {
  }

  /**
    What a successful identification records: the signature, features and
    command sets words, the size from the 48-bit count when the command
    sets say so and the 28-bit count otherwise, and the trimmed model.
   */
  predicate IdentifiedAs(d: Device, words: seq<u16>)
    requires |words| == SECTOR_WORDS
  {
    d.signature == words[IDENT_DEVICE_TYPE] &&
    d.features == words[IDENT_FEATURES] &&
    d.commandSets == IdentU32(words, IDENT_COMMAND_SETS) &&
    d.size == (if Bit(d.commandSets, COMMAND_SETS_USES_48_BIT_BIT)
               then IdentU32(words, IDENT_MAX_LBA_EXT) else IdentU32(words, IDENT_MAX_LBA)) &&
    d.model == StoredModel(ModelChars(words))
  }

  /** The sizes read back: the low and high words of the recorded 32-bit fields. */
  lemma {:induction false} IdentifiedFields(d: Device, words: seq<u16>)
    requires |words| == SECTOR_WORDS && IdentifiedAs(d, words)
    ensures d.commandSets % 0x1_0000 == words[82] && d.commandSets / 0x1_0000 == words[83]
    ensures (words[83] / 0x400) % 2 == 1 ==> d.size % 0x1_0000 == words[100] && d.size / 0x1_0000 == words[101]
    ensures (words[83] / 0x400) % 2 == 0 ==> d.size % 0x1_0000 == words[60] && d.size / 0x1_0000 == words[61]
  {
    var c := d.commandSets;
    UsesLba48Bit(c);
    assert c / 0x1_0000 == words[83];
  }

  /** Bit 26 of a 32-bit value is bit 10 of its high word. */
  lemma {:induction false} UsesLba48Bit(c: nat)
    ensures Bit(c, COMMAND_SETS_USES_48_BIT_BIT) == (((c / 0x1_0000) / 0x400) % 2 == 1)
  {
    Pow2Values();
    assert Pow2(26) == 0x400 * 0x1_0000 by {
      Pow2Add(10, 16);
    }
    DivDiv(c, 0x1_0000, 0x400);
    BitIsDiv(c, COMMAND_SETS_USES_48_BIT_BIT);
  }

  // ---------------------------------------------------------------------
  // init

  /** A channel's ports: command block, control block and bus master. */
  datatype Channel = Channel(basePort: u16, controlBasePort: u16, busMasterPort: u16)

  /** The channels before `init`: the legacy ports. */
  const DEFAULT_CHANNELS: seq<Channel> := [Channel(0x1f0, 0x3f6, 0), Channel(0x170, 0x376, 0)]

  /**
    The port assignment of `init`: each BAR, cut to 16 bits, replaces the
    legacy port when it is nonzero; BAR4 and BAR4 + 8 (again 16 bits) are
    the bus-master ports.
   */
  function InitChannels(barIo: seq<u32>): (cs: seq<Channel>)
    requires |barIo| == 5
    ensures |cs| == 2
    ensures var bars := seq(5, i requires 0 <= i < 5 => barIo[i] % 0x1_0000);
            cs[0].basePort == (if bars[0] != 0 then bars[0] else 0x1f0) &&
            cs[0].controlBasePort == (if bars[1] != 0 then bars[1] else 0x3f6) &&
            cs[1].basePort == (if bars[2] != 0 then bars[2] else 0x170) &&
            cs[1].controlBasePort == (if bars[3] != 0 then bars[3] else 0x376) &&
            cs[0].busMasterPort == bars[4] &&
            cs[1].busMasterPort == (if bars[4] != 0 then (bars[4] + 8) % 0x1_0000 else 0)
  {
    var bars := seq(5, i requires 0 <= i < 5 => barIo[i] % 0x1_0000);
    var c0 := DEFAULT_CHANNELS[0];
    var c1 := DEFAULT_CHANNELS[1];
    var c0 := if bars[0] != 0 then c0.(basePort := bars[0]) else c0;
    var c0 := if bars[1] != 0 then c0.(controlBasePort := bars[1]) else c0;
    var c1 := if bars[2] != 0 then c1.(basePort := bars[2]) else c1;
    var c1 := if bars[3] != 0 then c1.(controlBasePort := bars[3]) else c1;
    var (c0, c1) := if bars[4] != 0 then (c0.(busMasterPort := bars[4]), c1.(busMasterPort := (bars[4] + 8) % 0x1_0000))
                    else (c0, c1);
    [c0, c1]
  }

  /** The four (channel, drive) pairs `init` probes, in order. */
  const PROBE_ORDER: seq<(ChannelType, DriveType)> :=
    [(Primary, Master), (Primary, Slave), (Secondary, Master), (Secondary, Slave)]

  /**
    A probe `identify` can run to the end on: a full sector of identify
    words, and, when a drive answers, a busy-wait that stops.
   */
  predicate Answers(probe: IdentifyInput)
  {
    |probe.words| == SECTOR_WORDS &&
    (probe.firstStatus != 0 ==>
       exists j :: 0 <= j < |probe.loopStatuses| && LoopExits(probe.loopStatuses[j]))
  }

  /**
    The status `identify` ends with, from its checks in the order it makes
    them: nothing answered; the drive aborted without a packet-device
    signature; the drive reported an error after the identify command; or
    success.
   */
  function ExpectedStatus(probe: IdentifyInput): (s: IdentifyStatus)
    requires Answers(probe)
    ensures s == NoDevice <==> probe.firstStatus == 0
  {
    if probe.firstStatus == 0 then NoDevice
    else
      var aborted := Bit(probe.loopStatuses[FirstExit(probe.loopStatuses)], STATUS_ERROR_BIT);
      var signature := JoinBytes(probe.lba1, probe.lba2);
      if aborted && signature != ATAPI_SIGNATURE && signature != SATAPI_SIGNATURE then UnknownDeviceType
      else if Bit(probe.readyStatus, STATUS_ERROR_BIT) then RequestError
      else IdentifySuccess
  }

  /** The devices of the successful identifications, in order. */
  function Identified(outcomes: seq<IdentifyOutcome>): (ds: seq<Device>)
    ensures |ds| <= |outcomes|
    ensures forall d :: d in ds ==> exists i :: 0 <= i < |outcomes| &&
                                       outcomes[i].result.status == IdentifySuccess && outcomes[i].device == d
  {
    if |outcomes| == 0 then []
    else
      var last := outcomes[|outcomes| - 1];
      Identified(outcomes[..|outcomes| - 1]) + (if last.result.status == IdentifySuccess then [last.device] else [])
  }

  /**
    What probing one drive left behind: the outcome belongs to the drive at
    that place in the probe order, its status is the one the probe leads
    to, and on success it records what the words say.
   */
  predicate ProbedAs(o: IdentifyOutcome, probe: IdentifyInput, place: (ChannelType, DriveType))
  {
    (o.device.channel, o.device.driveType) == place &&
    Answers(probe) && o.result.status == ExpectedStatus(probe) &&
    (o.result.status == IdentifySuccess ==> IdentifiedAs(o.device, probe.words))
  }

  /** `Device(channel, drive).identify()` for one place of the probe order. */
  method ProbeDrive(place: (ChannelType, DriveType), probe: IdentifyInput) returns (o: IdentifyOutcome)
    requires Answers(probe)
    ensures ProbedAs(o, probe, place)
  {
    var (channel, drive) := place;
    o := Identify(NewDevice(channel, drive), probe);
  }

  /**
    The drive-probing loop of `init`: each of the four drives is identified
    in turn, and every one that was identified successfully is kept, in
    order (there are only four, so no push into the four-place `disks`
    vector fails).
   */
  method ProbeDisks(probe: seq<IdentifyInput>) returns (disks: InplaceVectors.InplaceVector<Device>, outcomes: seq<IdentifyOutcome>)
    requires |probe| == 4
    requires forall i :: 0 <= i < 4 ==> Answers(probe[i])
    ensures disks.capacity == 4 && disks.Valid() && |outcomes| == 4
    ensures disks.items == Identified(outcomes)
    ensures forall i :: 0 <= i < 4 ==> ProbedAs(outcomes[i], probe[i], PROBE_ORDER[i])
    ensures (forall i :: 0 <= i < 4 ==> ExpectedStatus(probe[i]) == IdentifySuccess) ==>
              |disks.items| == 4 && forall i :: 0 <= i < 4 ==> disks.items[i] == outcomes[i].device
  {
    disks := InplaceVectors.Empty(4);
    outcomes := [];
    var i := 0;
    while i < 4
      invariant 0 <= i <= 4 && |outcomes| == i
      invariant disks.capacity == 4 && disks.items == Identified(outcomes)
      invariant forall j :: 0 <= j < i ==> ProbedAs(outcomes[j], probe[j], PROBE_ORDER[j])
    {
      var o := ProbeDrive(PROBE_ORDER[i], probe[i]);
      IdentifiedAppend(outcomes, o);
      outcomes := outcomes + [o];
      if o.result.status == IdentifySuccess {
        var (pushed, ok) := InplaceVectors.PushBack(disks, o.device);
        disks := pushed;
      }
      i := i + 1;
    }
    if forall i :: 0 <= i < 4 ==> ExpectedStatus(probe[i]) == IdentifySuccess {
      assert forall i :: 0 <= i < 4 ==> outcomes[i].result.status == IdentifySuccess;
      IdentifiedAll(outcomes);
    }
  }

  /** When every identification succeeded, every device is kept, in order. */
  lemma {:induction false} IdentifiedAll(outcomes: seq<IdentifyOutcome>)
    requires forall i :: 0 <= i < |outcomes| ==> outcomes[i].result.status == IdentifySuccess
    ensures |Identified(outcomes)| == |outcomes|
    ensures forall i :: 0 <= i < |outcomes| ==> Identified(outcomes)[i] == outcomes[i].device
    decreases |outcomes|
  {
    if |outcomes| > 0 {
      var init := outcomes[..|outcomes| - 1];
      IdentifiedAll(init);
    }
  }

  lemma {:induction false} IdentifiedAppend(outcomes: seq<IdentifyOutcome>, o: IdentifyOutcome)
    ensures Identified(outcomes + [o]) ==
              Identified(outcomes) + (if o.result.status == IdentifySuccess then [o.device] else [])
  {
    assert (outcomes + [o])[..|outcomes|] == outcomes;
  }
}
