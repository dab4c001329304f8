/**
 Downloading a firmware image to the BeBoB boot loader (bebob_dl_mgr.cpp,
 BootloaderManager::downloadObject; bebob_dl_codes.cpp, the command codes): the image goes over in
 blocks, each written to the request buffer and followed by a block command that is answered.
 */
module Download {
  import opened Integers
  import opened Ranges
  import opened Wrappers

  const COMMAND_IDS: nat := 0x1_0000
  const RESPONSE_BUFFER: nat := 0x40

  // ----- commands and their representation -----

  datatype Code = DownloadStart | DownloadBlock | DownloadEnd
  {
    function Number(): Byte {
      match this
      case DownloadStart => 0x04
      case DownloadBlock => 0x05
      case DownloadEnd => 0x06
    }

    // Operand sizes in the header of a request, and in a response, in quadlets.
    function RequestOperands(): Byte {
      match this
      case DownloadStart => 10
      case DownloadBlock => 3
      case DownloadEnd => 0
    }

    function ResponseOperands(): nat {
      if DownloadStart? then 1 else 2
    }

    function MessageSize(): nat {
      match this
      case DownloadStart => 40
      case DownloadBlock => 12
      case DownloadEnd => 2
    }
  }

  datatype Command = Command(code: Code, version: Quad, id: nat, operands: seq<Quad>)

  predicate ValidCommand(cmd: Command) {
    cmd.id < COMMAND_IDS && |cmd.operands| == cmd.code.RequestOperands()
  }

  function QuadsBytes(quads: seq<Quad>): (bytes: seq<Byte>)
    ensures |bytes| == 4 * |quads|
  {
    if quads == [] then [] else QuadBytes(quads[0]) + QuadsBytes(quads[1..])
  }

  function Header(version: Quad, id: nat, code: Byte, operands: Byte): (bytes: seq<Byte>)
    requires id < COMMAND_IDS
    ensures |bytes| == 8
  {
    QuadBytes(version) + [id % 0x100, id / 0x100, code, operands]
  }

  /** CommandCodes::serialize and the operands, in a zeroed buffer of whole quadlets */
  function Serialized(cmd: Command): seq<Byte>
    requires ValidCommand(cmd)
  {
    var bytes := Header(cmd.version, cmd.id, cmd.code.Number(), cmd.code.RequestOperands()) + QuadsBytes(cmd.operands);
    bytes + seq((8 + cmd.code.MessageSize() + 3) / 4 * 4 - |bytes|, _ => 0)
  }

  datatype Response = Response(version: Quad, id: nat, code: Byte, operandSize: Byte, operands: seq<Quad>)

  function QuadsAt(bytes: seq<Byte>, at: nat, n: nat): (quads: seq<Quad>)
    requires at + 4 * n <= |bytes|
    ensures |quads| == n
    decreases n
  {
    if n == 0 then [] else [QuadAt(bytes, at)] + QuadsAt(bytes, at + 4, n - 1)
  }

  /** CommandCodes::deserialize with n operands */
  function Deserialized(raw: seq<Byte>, n: nat): (r: Response)
    requires 8 + 4 * n <= |raw|
    ensures |r.operands| == n
  {
    var low: int, high: int := raw[4], raw[5];
    Response(QuadAt(raw, 0), low + 0x100 * high, raw[6], raw[7], QuadsAt(raw, 8, n))
  }

  /**
   What readResponse demands of a reply. The version of the request is cut down to a byte by
   getProtocolVersion, that of the response is not.
   */
  predicate Answers(cmd: Command, r: Response) {
    r.version == cmd.version % 0x100 && r.id == cmd.id && r.code == cmd.code.Number()
  }

  /** A reply in the layout the deserializer reads */
  function ReplyBytes(version: Quad, id: nat, code: Byte, operands: seq<Quad>): seq<Byte>
    requires id < COMMAND_IDS && |operands| < 0x100
  {
    Header(version, id, code, |operands|) + QuadsBytes(operands)
  }

  lemma {:induction false} QuadsRoundTrip(before: seq<Byte>, quads: seq<Quad>, after: seq<Byte>)
    ensures QuadsAt(before + QuadsBytes(quads) + after, |before|, |quads|) == quads
    decreases |quads|
  {
    if quads != [] {
      var all := before + QuadsBytes(quads) + after;
      var first := QuadBytes(quads[0]);
      assert all[|before|..|before| + 4] == first;
      QuadRoundTrip(quads[0]);
      assert QuadAt(all, |before|) == quads[0] by {
        assert forall i | 0 <= i < 4 :: all[|before| + i] == first[i];
      }
      assert all == (before + first) + QuadsBytes(quads[1..]) + after;
      QuadsRoundTrip(before + first, quads[1..], after);
    }
  }

  /** What a device serializes is what the driver reads, whatever follows in the buffer. */
  lemma ResponseRoundTrip(version: Quad, id: nat, code: Byte, operands: seq<Quad>, rest: seq<Byte>)
    requires id < COMMAND_IDS && |operands| < 0x100
    ensures Deserialized(ReplyBytes(version, id, code, operands) + rest, |operands|) ==
            Response(version, id, code, |operands|, operands)
  {
    var header := Header(version, id, code, |operands|);
    var raw := ReplyBytes(version, id, code, operands) + rest;
    assert raw == header + QuadsBytes(operands) + rest;
    QuadsRoundTrip(header, operands, rest);
    assert forall i | 0 <= i < 8 :: raw[i] == header[i];
    QuadRoundTrip(version);
  }

  /** A device that echoes the header of a request is recognised exactly when the version fits a byte. */
  lemma EchoAnswersIff(cmd: Command, operands: seq<Quad>, rest: seq<Byte>)
    requires cmd.id < COMMAND_IDS && |operands| == cmd.code.ResponseOperands()
    ensures Answers(cmd, Deserialized(ReplyBytes(cmd.version, cmd.id, cmd.code.Number(), operands) + rest,
                                      cmd.code.ResponseOperands()))
            <==> cmd.version < 0x100
  {
    ResponseRoundTrip(cmd.version, cmd.id, cmd.code.Number(), operands, rest);
  }

  // ----- the image and its blocks -----

  /** The fields of a BCD header that a download uses; dates and times are octlets, low quadlet first. */
  datatype Bcd = Bcd(softwareDate: (Quad, Quad), softwareTime: (Quad, Quad), softwareId: Quad, softwareVersion: Quad,
                     imageBaseAddress: Quad, imageLength: Quad, imageCrc: Quad, imageOffset: Quad,
                     cneLength: Quad, cneCrc: Quad, cneOffset: Quad)

  /** EObjectType */
  datatype ObjectType = Application | CnE
  {
    // The object number in the start command: eO_Application or eO_Config.
    function Number(): Quad {
      if Application? then 0 else 1
    }
  }

  /** The part of the file that goes to the device, and where it goes */
  datatype Image = Image(base: Quad, length: Quad, crc: Quad, offset: Quad)

  function ImageOf(bcd: Bcd, kind: ObjectType): Image {
    match kind
    case Application => Image(bcd.imageBaseAddress, bcd.imageLength, bcd.imageCrc, bcd.imageOffset)
    case CnE => Image(0, bcd.cneLength, bcd.cneCrc, bcd.cneOffset)
  }

  /** The application comes from the image part of the file; the other part goes to address zero. */
  lemma ImageFields(bcd: Bcd)
    ensures ImageOf(bcd, Application) == Image(bcd.imageBaseAddress, bcd.imageLength, bcd.imageCrc, bcd.imageOffset)
    ensures ImageOf(bcd, CnE) == Image(0, bcd.cneLength, bcd.cneCrc, bcd.cneOffset)
  {}

  /** The operands of the start command, in the order of CommandCodesDownloadStart::serialize */
  function StartOperands(bcd: Bcd, kind: ObjectType): (quads: seq<Quad>)
    ensures |quads| == DownloadStart.RequestOperands()
  {
    var image := ImageOf(bcd, kind);
    [kind.Number(), bcd.softwareDate.0, bcd.softwareDate.1, bcd.softwareTime.0, bcd.softwareTime.1,
     bcd.softwareId, bcd.softwareVersion, image.base, image.length, image.crc]
  }

  function StartCommand(version: Quad, id: nat, bcd: Bcd, kind: ObjectType): (cmd: Command)
    ensures id < COMMAND_IDS ==> ValidCommand(cmd)
  {
    Command(DownloadStart, version, id, StartOperands(bcd, kind))
  }

  /** BCD::read; the offset is passed as a signed int. */
  predicate Readable(file: seq<Byte>, offset: nat, n: nat) {
    offset < 0x8000_0000 && offset + n <= |file|
  }

  /** What goes to the device: block data to the request buffer, commands to the request register */
  datatype Transfer = Buffer(data: seq<Byte>) | Request(bytes: seq<Byte>)

  function BlockCommand(version: Quad, id: nat, seqNumber: Quad, address: Quad, n: Quad): Command
    requires id < COMMAND_IDS
  {
    Command(DownloadBlock, version, id, [seqNumber, address, n])
  }

  /** One block: the data, then the command that tells where it goes */
  function BlockTransfers(version: Quad, id: nat, seqNumber: Quad, address: Quad, data: seq<Byte>): seq<Transfer>
    requires id < COMMAND_IDS && |data| < QUAD_RANGE
  {
    [Buffer(data), Request(Serialized(BlockCommand(version, id, seqNumber, address, |data|)))]
  }

  function Chunk(file: seq<Byte>, at: nat, n: nat): (data: seq<Byte>)
    ensures |data| <= n
  {
    if at + n <= |file| then file[at..at + n] else []
  }

  function BlockLength(image: Image, max: nat, done: nat): (n: nat)
    requires max > 0 && done < image.length
    ensures 0 < n <= max && done + n <= image.length
  {
    Min(max, image.length - done)
  }

  function NextId(id: nat): (r: nat)
    ensures r < COMMAND_IDS
  {
    (id + 1) % COMMAND_IDS
  }

  function LaterId(id: nat, j: nat): (r: nat)
    ensures r < COMMAND_IDS
  {
    (id + j) % COMMAND_IDS
  }

  /** Where the byte at position k of the image goes */
  function BlockAddress(image: Image, k: nat): Quad {
    (image.base + k) % QUAD_RANGE
  }

  /** The number of blocks from byte done of the image on */
  function Blocks(image: Image, max: nat, done: nat): nat
    requires max > 0 && done <= image.length
    decreases image.length - done
  {
    if done == image.length then 0 else 1 + Blocks(image, max, done + BlockLength(image, max, done))
  }

  /** The transfers of these blocks; the first of them has sequence number i and command id id. */
  function ImageTransfers(version: Quad, image: Image, file: seq<Byte>, max: nat, done: nat, i: nat,
                          id: nat): seq<Transfer>
    requires max > 0 && id < COMMAND_IDS && i <= done <= image.length
    decreases image.length - done
  {
    if done == image.length then []
    else
      var n := BlockLength(image, max, done);
      BlockTransfers(version, id, i, BlockAddress(image, done), Chunk(file, image.offset + done, n))
      + ImageTransfers(version, image, file, max, done + n, i + 1, NextId(id))
  }

  // ----- what the boot loader makes of the transfers -----

  /** The boot loader: its request buffer and the memory it has programmed */
  datatype Target = Target(buffer: seq<Byte>, memory: map<int, Byte>)

  function Stored(memory: map<int, Byte>, address: int, data: seq<Byte>): map<int, Byte>
    decreases |data|
  {
    if data == [] then memory
    else Stored(memory[address := data[0]], (address + 1) % QUAD_RANGE, data[1..])
  }

  /** A block command programs the number of bytes it names from the request buffer. */
  function Applied(t: Target, transfer: Transfer): Target {
    match transfer
    case Buffer(data) => t.(buffer := data)
    case Request(bytes) =>
      if |bytes| >= 20 && bytes[6] == DownloadBlock.Number() && QuadAt(bytes, 16) <= |t.buffer|
      then t.(memory := Stored(t.memory, QuadAt(bytes, 12), t.buffer[..QuadAt(bytes, 16)]))
      else t
  }

  function AppliedAll(t: Target, transfers: seq<Transfer>): Target
    decreases |transfers|
  {
    if transfers == [] then t else AppliedAll(Applied(t, transfers[0]), transfers[1..])
  }

  lemma {:induction false} AppliedConcat(t: Target, a: seq<Transfer>, b: seq<Transfer>)
    ensures AppliedAll(t, a + b) == AppliedAll(AppliedAll(t, a), b)
    decreases |a|
  {
    if a == [] {
      assert a + b == b;
    } else {
      assert (a + b)[1..] == a[1..] + b;
      AppliedConcat(Applied(t, a[0]), a[1..], b);
    }
  }

  /** The boot loader finds in a block command what the driver put there. */
  lemma BlockCommandRoundTrip(version: Quad, id: nat, seqNumber: Quad, address: Quad, n: Quad)
    requires id < COMMAND_IDS
    ensures var bytes := Serialized(BlockCommand(version, id, seqNumber, address, n));
            && |bytes| == 20 && bytes[6] == DownloadBlock.Number()
            && Deserialized(bytes, 3) == Response(version, id, DownloadBlock.Number(), 3, [seqNumber, address, n])
            && QuadAt(bytes, 8) == seqNumber && QuadAt(bytes, 12) == address && QuadAt(bytes, 16) == n
  {
    var operands := [seqNumber, address, n];
    var bytes := Serialized(BlockCommand(version, id, seqNumber, address, n));
    assert bytes == ReplyBytes(version, id, DownloadBlock.Number(), operands) + [];
    ResponseRoundTrip(version, id, DownloadBlock.Number(), operands, []);
    var read := QuadsAt(bytes, 8, 3);
    assert read == operands;
    assert read[0] == QuadAt(bytes, 8) && read[1] == QuadAt(bytes, 12) && read[2] == QuadAt(bytes, 16);
  }

  /** From the start command it reads the header's fields, with base, length and CRC of the object to come. */
  lemma StartCommandRoundTrip(version: Quad, id: nat, bcd: Bcd, kind: ObjectType)
    requires id < COMMAND_IDS
    ensures var bytes := Serialized(StartCommand(version, id, bcd, kind));
            var image := ImageOf(bcd, kind);
            && |bytes| == 48
            && Deserialized(bytes, 10) == Response(version, id, DownloadStart.Number(), 10, StartOperands(bcd, kind))
            && Deserialized(bytes, 10).operands[7..] == [image.base, image.length, image.crc]
    ensures Deserialized(Serialized(StartCommand(version, id, bcd, kind)), 10).operands ==
            [if kind.Application? then 0 else 1]
            + [bcd.softwareDate.0, bcd.softwareDate.1, bcd.softwareTime.0, bcd.softwareTime.1]
            + [bcd.softwareId, bcd.softwareVersion]
            + if kind.Application? then [bcd.imageBaseAddress, bcd.imageLength, bcd.imageCrc]
              else [0, bcd.cneLength, bcd.cneCrc]
  {
    var operands := StartOperands(bcd, kind);
    var bytes := Serialized(StartCommand(version, id, bcd, kind));
    assert bytes == ReplyBytes(version, id, DownloadStart.Number(), operands) + [];
    ResponseRoundTrip(version, id, DownloadStart.Number(), operands, []);
  }

  /** The octets of the three commands: version, id with its low octet first, code, number of operands, operands */
  lemma CommandOctets(version: Quad, id: nat, seqNumber: Quad, address: Quad, n: Quad, bcd: Bcd, kind: ObjectType)
    requires id < COMMAND_IDS
    ensures Serialized(StartCommand(version, id, bcd, kind)) ==
            QuadBytes(version) + [id % 0x100, id / 0x100, 4, 10] + QuadsBytes(StartOperands(bcd, kind))
    ensures Serialized(BlockCommand(version, id, seqNumber, address, n)) ==
            QuadBytes(version) + [id % 0x100, id / 0x100, 5, 3] + QuadsBytes([seqNumber, address, n])
    ensures Serialized(Command(DownloadEnd, version, id, [])) ==
            QuadBytes(version) + [id % 0x100, id / 0x100, 6, 0] + [0, 0, 0, 0]
  {
    hide StartOperands, QuadBytes;
  }

  lemma BlockApplied(t: Target, version: Quad, id: nat, seqNumber: Quad, address: Quad, data: seq<Byte>)
    requires id < COMMAND_IDS && |data| < QUAD_RANGE
    ensures AppliedAll(t, BlockTransfers(version, id, seqNumber, address, data)) ==
            Target(data, Stored(t.memory, address, data))
  {
    var request := Request(Serialized(BlockCommand(version, id, seqNumber, address, |data|)));
    BlockCommandRoundTrip(version, id, seqNumber, address, |data|);
    hide Serialized, Stored;
    assert data[..|data|] == data;
    var filled := Applied(t, Buffer(data));
    assert Applied(filled, request) == Target(data, Stored(t.memory, address, data));
    AppliedTwo(t, Buffer(data), request);
  }

  lemma AppliedTwo(t: Target, a: Transfer, b: Transfer)
    ensures AppliedAll(t, [a, b]) == Applied(Applied(t, a), b)
  {
    hide Applied;
    assert [a, b][1..] == [b] && [b][1..] == [];
    assert AppliedAll(t, [a, b]) == AppliedAll(Applied(t, a), [b]);
    assert AppliedAll(Applied(t, a), [b]) == AppliedAll(Applied(Applied(t, a), b), []);
  }

  function Address(base: Quad, k: nat): int {
    (base + k) % QUAD_RANGE
  }

  lemma AddressesDistinct(base: Quad, j: nat, k: nat)
    requires j < QUAD_RANGE && k < QUAD_RANGE && j != k
    ensures Address(base, j) != Address(base, k)
  {}

  lemma NextAddress(base: Quad, k: nat)
    ensures (Address(base, k) + 1) % QUAD_RANGE == Address(base, k + 1)
  {}

  function Peek(memory: map<int, Byte>, x: int): Option<Byte> {
    if x in memory then Some(memory[x]) else None
  }

  /** x is none of the addresses k, ..., end - 1 after base. */
  predicate Outside(base: Quad, k: nat, end: nat, x: int) {
    forall j: nat :: k <= j < end ==> x != Address(base, j)
  }

  lemma {:induction false} StoredAt(memory: map<int, Byte>, base: Quad, k: nat, data: seq<Byte>)
    requires k + |data| <= QUAD_RANGE
    ensures forall j: nat :: k <= j < k + |data| ==>
              Peek(Stored(memory, Address(base, k), data), Address(base, j)) == Some(data[j - k])
    ensures forall x :: Outside(base, k, k + |data|, x) ==>
              Peek(Stored(memory, Address(base, k), data), x) == Peek(memory, x)
    decreases |data|
  {
    hide Address;
    if data != [] {
      var memory' := memory[Address(base, k) := data[0]];
      NextAddress(base, k);
      StoredAt(memory', base, k + 1, data[1..]);
      forall j: nat | k < j < k + |data| ensures Address(base, j) != Address(base, k) {
        AddressesDistinct(base, j, k);
      }
    }
  }

  /** The bytes of the image from done on are where they belong; the rest of the memory is as before. */
  predicate HoldsImage(memory: map<int, Byte>, image: Image, file: seq<Byte>, done: nat, end: nat)
    requires image.offset + image.length <= |file| && end <= image.length
  {
    forall k: nat :: done <= k < end ==> Peek(memory, Address(image.base, k)) == Some(file[image.offset + k])
  }

  ghost predicate RestUnchanged(before: map<int, Byte>, after: map<int, Byte>, base: Quad, done: nat, end: nat) {
    forall x :: Outside(base, done, end, x) ==> Peek(after, x) == Peek(before, x)
  }

  lemma ChunkStored(memory: map<int, Byte>, image: Image, file: seq<Byte>, done: nat, n: nat)
    requires image.offset + image.length <= |file| && done + n <= image.length
    ensures var memory' := Stored(memory, Address(image.base, done), Chunk(file, image.offset + done, n));
            HoldsImage(memory', image, file, done, done + n)
            && RestUnchanged(memory, memory', image.base, done, done + n)
  {
    hide Address, Stored, Outside, Peek;
    StoredAt(memory, image.base, done, Chunk(file, image.offset + done, n));
  }

  lemma ChunkStays(memory: map<int, Byte>, memory': map<int, Byte>, image: Image, file: seq<Byte>, done: nat, mid: nat)
    requires image.offset + image.length <= |file| && done <= mid <= image.length
    requires HoldsImage(memory, image, file, done, mid)
    requires HoldsImage(memory', image, file, mid, image.length)
    requires RestUnchanged(memory, memory', image.base, mid, image.length)
    ensures HoldsImage(memory', image, file, done, image.length)
  {
    hide Address, Peek;
    forall k: nat | done <= k < mid ensures Peek(memory', Address(image.base, k)) == Some(file[image.offset + k]) {
      forall j: nat | mid <= j < image.length ensures Address(image.base, k) != Address(image.base, j) {
        AddressesDistinct(image.base, k, j);
      }
      assert Outside(image.base, mid, image.length, Address(image.base, k));
    }
  }

  /**
   The boot loader ends up with the image at its base address, byte for byte and whatever the block
   size, and with the rest of its memory untouched.
   */
  lemma {:induction false} ImageReassembled(t: Target, version: Quad, image: Image, file: seq<Byte>, max: nat,
                                            done: nat, i: nat, id: nat)
    requires max > 0 && id < COMMAND_IDS && i <= done <= image.length
    requires image.offset + image.length <= |file|
    ensures var memory := AppliedAll(t, ImageTransfers(version, image, file, max, done, i, id)).memory;
            && HoldsImage(memory, image, file, done, image.length)
            && RestUnchanged(t.memory, memory, image.base, done, image.length)
    decreases image.length - done
  {
    hide *;
    if done == image.length {
      NothingLeft(t, version, image, file, max, i, id);
    } else {
      var n := BlockLength(image, max, done);
      var data := Chunk(file, image.offset + done, n);
      var rest := ImageTransfers(version, image, file, max, done + n, i + 1, NextId(id));
      var filled := Target(data, Stored(t.memory, Address(image.base, done), data));
      FirstBlock(t, version, image, file, max, done, i, id);
      ChunkStored(t.memory, image, file, done, n);
      ImageReassembled(filled, version, image, file, max, done + n, i + 1, NextId(id));
      var memory := AppliedAll(filled, rest).memory;
      ChunkStays(filled.memory, memory, image, file, done, done + n);
      OutsideBoth(t.memory, filled.memory, memory, image.base, done, done + n, image.length);
    }
  }

  lemma NothingLeft(t: Target, version: Quad, image: Image, file: seq<Byte>, max: nat, i: nat, id: nat)
    requires max > 0 && id < COMMAND_IDS && i <= image.length && image.offset + image.length <= |file|
    ensures var memory := AppliedAll(t, ImageTransfers(version, image, file, max, image.length, i, id)).memory;
            && HoldsImage(memory, image, file, image.length, image.length)
            && RestUnchanged(t.memory, memory, image.base, image.length, image.length)
  {}

  lemma FirstBlock(t: Target, version: Quad, image: Image, file: seq<Byte>, max: nat, done: nat, i: nat, id: nat)
    requires max > 0 && id < COMMAND_IDS && i <= done < image.length
    ensures var n := BlockLength(image, max, done);
            var data := Chunk(file, image.offset + done, n);
            AppliedAll(t, ImageTransfers(version, image, file, max, done, i, id)) ==
            AppliedAll(Target(data, Stored(t.memory, Address(image.base, done), data)),
                       ImageTransfers(version, image, file, max, done + n, i + 1, NextId(id)))
  {
    hide Stored, Applied, BlockTransfers, AppliedAll, Chunk;
    var n := BlockLength(image, max, done);
    var data := Chunk(file, image.offset + done, n);
    BlockApplied(t, version, id, i, BlockAddress(image, done), data);
    AppliedConcat(t, BlockTransfers(version, id, i, BlockAddress(image, done), data),
                  ImageTransfers(version, image, file, max, done + n, i + 1, NextId(id)));
  }

  lemma OutsideBoth(a: map<int, Byte>, b: map<int, Byte>, c: map<int, Byte>, base: Quad, done: nat, mid: nat, end: nat)
    requires done <= mid <= end
    requires RestUnchanged(a, b, base, done, mid) && RestUnchanged(b, c, base, mid, end)
    ensures RestUnchanged(a, c, base, done, end)
  {
    hide Address, Peek;
    forall x | Outside(base, done, end, x) ensures Peek(c, x) == Peek(a, x) {
      assert Outside(base, done, mid, x) && Outside(base, mid, end, x);
    }
  }

  /** The transfers of a single block that starts at byte at of the image */
  function BlockAt(version: Quad, image: Image, file: seq<Byte>, max: nat, id: nat, seqNumber: nat,
                   at: nat): seq<Transfer>
    requires max > 0 && id < COMMAND_IDS && seqNumber <= at < image.length
  {
    BlockTransfers(version, id, seqNumber, BlockAddress(image, at),
                   Chunk(file, image.offset + at, BlockLength(image, max, at)))
  }

  function BlockOffset(max: nat, j: nat): int {
    j * max
  }

  lemma OffsetStep(max: nat, j: nat)
    requires max > 0
    ensures j <= BlockOffset(max, j)
    ensures BlockOffset(max, 0) == 0
    ensures j > 0 ==> BlockOffset(max, j) == BlockOffset(max, j - 1) + max
  {
    MulSmall(j, max);
    if j > 0 {
      assert j * max == (j - 1) * max + max;
    }
  }

  lemma IdStep(id: nat, j: nat)
    requires id < COMMAND_IDS
    ensures LaterId(id, 0) == id
    ensures j > 0 ==> LaterId(id, j) == LaterId(NextId(id), j - 1)
  {}

  /**
   The j-th block in closed form: sequence numbers and command ids count up, the blocks tile the
   image without gap or overlap and all but the last are as long as allowed.
   */
  lemma {:induction false} BlockInSequence(version: Quad, image: Image, file: seq<Byte>, max: nat,
                                           done: nat, i: nat, id: nat, j: nat)
    requires max > 0 && id < COMMAND_IDS && i <= done && done + BlockOffset(max, j) < image.length
    ensures j <= BlockOffset(max, j) && 2 * j + 1 < |ImageTransfers(version, image, file, max, done, i, id)|
    ensures ImageTransfers(version, image, file, max, done, i, id)[2 * j..2 * j + 2] ==
            BlockAt(version, image, file, max, LaterId(id, j), i + j, done + BlockOffset(max, j))
    decreases j
  {
    hide BlockOffset, LaterId, NextId, BlockTransfers, BlockAt, Chunk, ImageTransfers;
    OffsetStep(max, j);
    IdStep(id, j);
    var n := BlockLength(image, max, done);
    var first := BlockAt(version, image, file, max, id, i, done);
    var rest := ImageTransfers(version, image, file, max, done + n, i + 1, NextId(id));
    FirstOfImage(version, image, file, max, done, i, id);
    if j == 0 {
      assert (first + rest)[0..2] == first;
    } else {
      OffsetStep(max, j - 1);
      assert n == max;
      BlockInSequence(version, image, file, max, done + max, i + 1, NextId(id), j - 1);
      SkipBlock(first, rest, j);
    }
  }

  lemma FirstOfImage(version: Quad, image: Image, file: seq<Byte>, max: nat, done: nat, i: nat, id: nat)
    requires max > 0 && id < COMMAND_IDS && i <= done < image.length
    ensures |BlockAt(version, image, file, max, id, i, done)| == 2
    ensures ImageTransfers(version, image, file, max, done, i, id) ==
            BlockAt(version, image, file, max, id, i, done)
            + ImageTransfers(version, image, file, max, done + BlockLength(image, max, done), i + 1, NextId(id))
  {}

  lemma SkipBlock(first: seq<Transfer>, rest: seq<Transfer>, j: nat)
    requires |first| == 2 && j > 0 && 2 * j <= |rest|
    ensures (first + rest)[2 * j..2 * j + 2] == rest[2 * (j - 1)..2 * (j - 1) + 2]
  {}

  lemma {:induction false} MulSmall(i: nat, max: nat)
    requires max > 0
    ensures i <= i * max
    decreases i
  {
    if i > 0 {
      MulSmall(i - 1, max);
      assert i * max == (i - 1) * max + max;
    }
  }

  // ----- when a download succeeds -----

  type Raw = s: seq<Byte> | |s| == RESPONSE_BUFFER witness seq(RESPONSE_BUFFER, _ => 0)

  /** How the bus treats the n-th write and what the n-th read returns (None: the read fails) */
  datatype Script = Script(accepts: nat -> bool, replies: nat -> Option<Raw>)

  predicate Answered(cmd: Command, reply: Option<Raw>) {
    reply.Some? && Answers(cmd, Deserialized(reply.value, cmd.code.ResponseOperands()))
  }

  /** The start reply is an answer and reports no error, which would be negative. */
  predicate StartGood(cmd: Command, reply: Option<Raw>) {
    Answered(cmd, reply) && Deserialized(reply.value, 1).operands[0] < 0x8000_0000
  }

  predicate BlockGood(cmd: Command, reply: Option<Raw>, seqNumber: Quad) {
    Answered(cmd, reply) && Deserialized(reply.value, 2).operands == [seqNumber, 0]
  }

  /**
   The end reply reports a valid image with the right CRC. Whether the reply answers the end
   command is not looked at, and if it could not be read the fields are what happened to be there.
   */
  predicate EndGood(reply: Option<Raw>, leftover: seq<Quad>, crc: Quad)
    requires |leftover| == 2
  {
    var fields := if reply.Some? then Deserialized(reply.value, 2).operands else leftover;
    fields == [crc, 0]
  }

  /** Where the fields of a response are */
  lemma FieldsAt(raw: Raw)
    ensures Deserialized(raw, 1).operands == [QuadAt(raw, 8)]
    ensures Deserialized(raw, 2).operands == [QuadAt(raw, 8), QuadAt(raw, 12)]
    ensures forall n: nat :: n <= 2 ==>
              && Deserialized(raw, n).version == QuadAt(raw, 0) && Deserialized(raw, n).code == raw[6]
              && Deserialized(raw, n).id == raw[4] as int + 0x100 * raw[5] as int
  {
    assert QuadsAt(raw, 12, 1) == [QuadAt(raw, 12)] + QuadsAt(raw, 16, 0);
    assert QuadsAt(raw, 12, 0) == [];
  }

  /** A reply has the id and the command code of the request in octets 4 to 6, and its version cut to an octet. */
  predicate AnswersTo(raw: Raw, version: Quad, id: nat, code: nat) {
    QuadAt(raw, 0) == version % 0x100 && raw[4] as int + 0x100 * raw[5] as int == id && raw[6] == code
  }

  /**
   The replies that are accepted, octet by octet: the start reply must not report a negative number, a block
   reply its sequence number and no error, the end reply the CRC and no error, whatever it answers.
   */
  lemma AcceptedReplies(version: Quad, id: nat, operands: seq<Quad>, raw: Raw, n: Quad, leftover: seq<Quad>)
    requires |leftover| == 2
    ensures StartGood(Command(DownloadStart, version, id, operands), Some(raw)) <==>
            AnswersTo(raw, version, id, 4) && QuadAt(raw, 8) < 0x8000_0000
    ensures BlockGood(Command(DownloadBlock, version, id, operands), Some(raw), n) <==>
            AnswersTo(raw, version, id, 5) && QuadAt(raw, 8) == n && QuadAt(raw, 12) == 0
    ensures EndGood(Some(raw), leftover, n) <==> QuadAt(raw, 8) == n && QuadAt(raw, 12) == 0
    ensures EndGood(None, leftover, n) <==> leftover[0] == n && leftover[1] == 0
    ensures !StartGood(Command(DownloadStart, version, id, operands), None)
    ensures !BlockGood(Command(DownloadBlock, version, id, operands), None, n)
  {
    FieldsAt(raw);
    hide Deserialized;
    assert leftover == [leftover[0], leftover[1]];
  }

  /** One block can be read and sent, and its reply, the r-th, matches and reports no error. */
  predicate OneGood(s: Script, version: Quad, id: nat, file: seq<Byte>, offset: nat, n: Quad, seqNumber: Quad,
                    address: Quad,
                    w: nat, r: nat)
    requires id < COMMAND_IDS
  {
    && Readable(file, offset, n) && s.accepts(w) && s.accepts(w + 1)
    && BlockGood(BlockCommand(version, id, seqNumber, address, n), s.replies(r), seqNumber)
  }

  /** All blocks from byte done on can be read and sent and are answered well; w and r count writes and reads. */
  predicate BlocksGood(s: Script, version: Quad, image: Image, file: seq<Byte>, max: nat,
                       done: nat, i: nat, id: nat, w: nat, r: nat)
    requires max > 0 && id < COMMAND_IDS && i <= done <= image.length
    decreases image.length - done
  {
    done == image.length ||
    var n := BlockLength(image, max, done);
    && OneGood(s, version, id, file, image.offset + done, n, i, BlockAddress(image, done), w, r)
    && BlocksGood(s, version, image, file, max, done + n, i + 1, NextId(id), w + 2, r + 1)
  }

  /** When all blocks are good, each has been sent and answered in its turn, with its number and no error. */
  lemma {:induction false} EveryBlockAnswered(s: Script, version: Quad, image: Image, file: seq<Byte>, max: nat,
                                              done: nat, i: nat, id: nat, w: nat, r: nat, j: nat)
    requires max > 0 && id < COMMAND_IDS && i <= done <= image.length
    requires BlocksGood(s, version, image, file, max, done, i, id, w, r) && j < Blocks(image, max, done)
    ensures s.accepts(w + 2 * j) && s.accepts(w + 2 * j + 1) && s.replies(r + j).Some?
    ensures var raw := s.replies(r + j).value;
            AnswersTo(raw, version, LaterId(id, j), 5) && QuadAt(raw, 8) == i + j && QuadAt(raw, 12) == 0
    decreases j
  {
    var n := BlockLength(image, max, done);
    IdStep(id, j);
    if j == 0 {
      var raw := s.replies(r).value;
      AcceptedReplies(version, id, [i, BlockAddress(image, done), n], raw, i, [0, 0]);
    } else {
      hide OneGood, AnswersTo, LaterId, NextId;
      EveryBlockAnswered(s, version, image, file, max, done + n, i + 1, NextId(id), w + 2, r + 1, j - 1);
    }
  }

  lemma {:induction false} GoodBlocksFit(s: Script, version: Quad, image: Image, file: seq<Byte>, max: nat,
                                         done: nat, i: nat, id: nat, w: nat, r: nat)
    requires max > 0 && id < COMMAND_IDS && i <= done < image.length
    requires BlocksGood(s, version, image, file, max, done, i, id, w, r)
    ensures image.offset + image.length <= |file|
    decreases image.length - done
  {
    var n := BlockLength(image, max, done);
    if done + n < image.length {
      GoodBlocksFit(s, version, image, file, max, done + n, i + 1, NextId(id), w + 2, r + 1);
    }
  }

  // ----- the boot loader manager -----

  /** The device on the bus, with the log of the transfers that reached it */
  class Bus {
    const script: Script
    var writes: nat
    var responses: nat
    var log: seq<Transfer>

    constructor (script: Script)
      ensures this.script == script && writes == 0 && responses == 0 && log == []
    {
      this.script, writes, responses, log := script, 0, 0, [];
    }

    method Write(transfer: Transfer) returns (ok: bool)
      modifies this`writes, this`log
      ensures ok == script.accepts(old(writes)) && writes == old(writes) + 1
      ensures log == if ok then old(log) + [transfer] else old(log)
    {
      ok := script.accepts(writes);
      writes := writes + 1;
      if ok {
        log := log + [transfer];
      }
    }

    method Read() returns (reply: Option<Raw>)
      modifies this`responses
      ensures reply == script.replies(old(responses)) && responses == old(responses) + 1
    {
      reply := script.replies(responses);
      responses := responses + 1;
    }
  }

  /** How many blocks have gone through, and what is left: the loop's position in the download */
  ghost predicate Progress(s: Script, version: Quad, image: Image, file: seq<Byte>, max: nat, id: nat, w: nat, r: nat,
                           sent: seq<Transfer>, done: nat, i: nat)
    requires max > 0 && id < COMMAND_IDS && i <= done <= image.length
  {
    && ImageTransfers(version, image, file, max, 0, 0, id) ==
       sent + ImageTransfers(version, image, file, max, done, i, LaterId(id, i))
    && (BlocksGood(s, version, image, file, max, 0, 0, id, w, r) <==>
        BlocksGood(s, version, image, file, max, done, i, LaterId(id, i), w + 2 * i, r + i))
    && Blocks(image, max, 0) == i + Blocks(image, max, done)
  }

  lemma Begins(s: Script, version: Quad, image: Image, file: seq<Byte>, max: nat, id: nat, w: nat, r: nat)
    requires max > 0 && id < COMMAND_IDS
    ensures Progress(s, version, image, file, max, id, w, r, [], 0, 0)
  {
    assert (id + 0) % COMMAND_IDS == id;
  }

  /** What has to be true of the block at the front of the loop, and what happens when it is */
  lemma Advances(s: Script, version: Quad, image: Image, file: seq<Byte>, max: nat, id: nat, w: nat, r: nat,
                 sent: seq<Transfer>, done: nat, i: nat)
    requires max > 0 && id < COMMAND_IDS && i <= done < image.length
    requires Progress(s, version, image, file, max, id, w, r, sent, done, i)
    ensures NextId(LaterId(id, i)) == LaterId(id, i + 1)
    ensures var n := BlockLength(image, max, done);
            var good := OneGood(s, version, LaterId(id, i), file, image.offset + done, n, i,
                                BlockAddress(image, done), w + 2 * i, r + i);
            && (!good ==> !BlocksGood(s, version, image, file, max, 0, 0, id, w, r))
            && (good ==> Progress(s, version, image, file, max, id, w, r,
                  sent + BlockTransfers(version, LaterId(id, i), i, BlockAddress(image, done),
                                        Chunk(file, image.offset + done, n)), done + n, i + 1))
  {
    hide BlockTransfers, BlockLength, Chunk, OneGood;
    var id' := LaterId(id, i);
    assert NextId(id') == LaterId(id, i + 1);
    assert w + 2 * i + 2 == w + 2 * (i + 1) && r + i + 1 == r + (i + 1);
    var n := BlockLength(image, max, done);
    var block := BlockTransfers(version, id', i, BlockAddress(image, done), Chunk(file, image.offset + done, n));
    var rest := ImageTransfers(version, image, file, max, done + n, i + 1, NextId(id'));
    assert sent + (block + rest) == sent + block + rest;
  }

  class BootloaderManager {
    const version: Quad
    const bus: Bus
    // CommandCodes::m_gCommandId, an unsigned short
    var nextId: nat

    ghost predicate Valid()
      reads this
    {
      nextId < COMMAND_IDS
    }

    constructor (version: Quad, bus: Bus)
      ensures Valid() && this.version == version && this.bus == bus && nextId == 0
    {
      this.version, this.bus, nextId := version, bus, 0;
    }

    method NewCommand(code: Code, operands: seq<Quad>) returns (cmd: Command)
      requires Valid() && |operands| == code.RequestOperands()
      modifies this
      ensures Valid() && nextId == NextId(old(nextId)) == (old(nextId) + 1) % COMMAND_IDS
      ensures cmd == Command(code, version, old(nextId), operands) && ValidCommand(cmd)
    {
      cmd := Command(code, version, nextId, operands);
      nextId := (nextId + 1) % COMMAND_IDS;
    }

    method WriteRequest(cmd: Command) returns (ok: bool)
      requires ValidCommand(cmd)
      modifies bus`writes, bus`log
      ensures ok == bus.script.accepts(old(bus.writes)) && bus.writes == old(bus.writes) + 1
      ensures bus.log == if ok then old(bus.log) + [Request(Serialized(cmd))] else old(bus.log)
    {
      ok := bus.Write(Request(Serialized(cmd)));
    }

    /** raw is what ends up in the response fields, unless nothing could be read. */
    method ReadResponse(cmd: Command) returns (ok: bool, raw: Option<Raw>)
      modifies bus`responses
      ensures raw == bus.script.replies(old(bus.responses)) && bus.responses == old(bus.responses) + 1
      ensures ok <==> Answered(cmd, raw)
      ensures ok ==> raw.Some?
    {
      raw := bus.Read();
      if raw == None {
        return false, raw;
      }
      var response := Deserialized(raw.value, cmd.code.ResponseOperands());
      ok := response.version == cmd.version % 0x100 && response.id == cmd.id && response.code == cmd.code.Number();
    }

    /** One turn of the block loop. When the block itself cannot be written the download is aborted on the spot. */
    method SendBlock(file: seq<Byte>, offset: nat, n: Quad, seqNumber: Quad, address: Quad)
      returns (good: bool, aborted: bool)
      requires Valid() && n > 0
      modifies this, bus`writes, bus`log, bus`responses
      ensures Valid()
      ensures good <==> OneGood(bus.script, version, old(nextId), file, offset, n, seqNumber, address,
                                old(bus.writes), old(bus.responses))
      ensures good ==> Readable(file, offset, n)
      ensures aborted <==> Readable(file, offset, n) && !bus.script.accepts(old(bus.writes))
      ensures good ==>
                && nextId == NextId(old(nextId))
                && bus.writes == old(bus.writes) + 2 && bus.responses == old(bus.responses) + 1
                && bus.log == old(bus.log)
                              + BlockTransfers(version, old(nextId), seqNumber, address, Chunk(file, offset, n))
    {
      aborted := false;
      if !Readable(file, offset, n) {
        return false, aborted;
      }
      var block := file[offset..offset + n];
      var written := bus.Write(Buffer(block));
      if !written {
        return false, true;
      }
      var cmd := NewCommand(DownloadBlock, [seqNumber, address, n]);
      var requested := WriteRequest(cmd);
      if !requested {
        return false, aborted;
      }
      var ok, raw := ReadResponse(cmd);
      if !ok {
        return false, aborted;
      }
      var operands := Deserialized(raw.value, 2).operands;
      assert operands == [operands[0], operands[1]];
      return operands[0] == seqNumber && operands[1] == 0, aborted;
    }

    /**
     downloadObject. maxBlockSize is the asynchronous payload of the node, leftover what is in the
     fields of an end response that was never read.
     */
    method DownloadObject(bcd: Bcd, kind: ObjectType, file: seq<Byte>, maxBlockSize: nat, leftover: seq<Quad>)
      returns (result: bool)
      requires Valid() && |leftover| == 2 && 0 < maxBlockSize <= 0x1_0000
      modifies this, bus`writes, bus`log, bus`responses
      ensures Valid()
      ensures var image := ImageOf(bcd, kind);
              result <==>
                && bus.script.accepts(old(bus.writes))
                && StartGood(StartCommand(version, old(nextId), bcd, kind), bus.script.replies(old(bus.responses)))
                && BlocksGood(bus.script, version, image, file, maxBlockSize, 0, 0, NextId(old(nextId)),
                              old(bus.writes) + 1, old(bus.responses) + 1)
                && EndGood(bus.script.replies(old(bus.responses) + 1 + Blocks(image, maxBlockSize, 0)),
                           leftover, image.crc)
      ensures result ==>
                var image := ImageOf(bcd, kind);
                var n := Blocks(image, maxBlockSize, 0);
                var end := Command(DownloadEnd, version, LaterId(NextId(old(nextId)), n), []);
                bus.log == old(bus.log)
                           + [Request(Serialized(StartCommand(version, old(nextId), bcd, kind)))]
                           + ImageTransfers(version, image, file, maxBlockSize, 0, 0, NextId(old(nextId)))
                           + if bus.script.accepts(old(bus.writes) + 1 + 2 * n) then [Request(Serialized(end))] else []
    {
      hide BlocksGood, ImageTransfers, Serialized, Blocks, Answered, Deserialized;
      hide NextId, LaterId, StartOperands, ImageOf, EndGood;
      var image := ImageOf(bcd, kind);
      var start := NewCommand(DownloadStart, StartOperands(bcd, kind));
      var requested := WriteRequest(start);
      if !requested {
        return false;
      }
      var answered, reply := ReadResponse(start);
      if !answered || Deserialized(reply.value, 1).operands[0] >= 0x8000_0000 {
        return false;
      }
      var aborted: bool;
      result, aborted := SendImage(image, file, maxBlockSize);
      if aborted {
        return false;
      }
      var valid := EndTransaction(image.crc, leftover);
      return result && valid;
    }

    /** The end command, whose own failures are not looked at, and what its response fields say */
    method EndTransaction(crc: Quad, leftover: seq<Quad>) returns (valid: bool)
      requires Valid() && |leftover| == 2
      modifies this, bus`writes, bus`log, bus`responses
      ensures Valid()
      ensures valid <==> EndGood(bus.script.replies(old(bus.responses)), leftover, crc)
      ensures bus.log == old(bus.log)
                         + if bus.script.accepts(old(bus.writes)) then
                             [Request(Serialized(Command(DownloadEnd, version, old(nextId), [])))]
                           else []
    {
      hide Serialized, Deserialized, Answered;
      var end := NewCommand(DownloadEnd, []);
      var ended := WriteRequest(end);
      var _, endReply := ReadResponse(end);
      var fields := if endReply.Some? then Deserialized(endReply.value, 2).operands else leftover;
      assert fields == [fields[0], fields[1]];
      return fields[1] == 0 && fields[0] == crc;
    }

    /** The block loop of downloadObject */
    method SendImage(image: Image, file: seq<Byte>, maxBlockSize: nat) returns (result: bool, aborted: bool)
      requires Valid() && 0 < maxBlockSize <= 0x1_0000
      modifies this, bus`writes, bus`log, bus`responses
      ensures Valid()
      ensures result <==> BlocksGood(bus.script, version, image, file, maxBlockSize, 0, 0, old(nextId),
                                     old(bus.writes), old(bus.responses))
      ensures aborted ==> !result
      ensures result ==>
                var n := Blocks(image, maxBlockSize, 0);
                && nextId == LaterId(old(nextId), n)
                && bus.writes == old(bus.writes) + 2 * n && bus.responses == old(bus.responses) + n
                && bus.log == old(bus.log) + ImageTransfers(version, image, file, maxBlockSize, 0, 0, old(nextId))
    {
      hide Progress, BlocksGood, ImageTransfers, BlockTransfers, Chunk;
      hide Blocks, OneGood, LaterId, BlockAddress, BlockLength;
      ghost var s, w, r, id := bus.script, bus.writes, bus.responses, nextId;
      ghost var log := bus.log;
      ghost var sent: seq<Transfer> := [];
      var imageLength: nat := image.length;
      var i: nat := 0;
      var address: nat := 0;
      var offset: nat := image.offset;
      aborted := false;
      IdStep(id, 0);
      Begins(s, version, image, file, maxBlockSize, id, w, r);
      while imageLength > 0
        invariant Valid() && imageLength <= image.length
        invariant i <= address == image.length - imageLength && offset == image.offset + address < QUAD_RANGE
        invariant Progress(s, version, image, file, maxBlockSize, id, w, r, sent, address, i)
        invariant nextId == LaterId(id, i)
        invariant bus.writes == w + 2 * i && bus.responses == r + i && bus.log == log + sent
        decreases imageLength
      {
        var blockSize := BlockLength(image, maxBlockSize, address);
        Advances(s, version, image, file, maxBlockSize, id, w, r, sent, address, i);
        var good: bool;
        good, aborted := SendBlock(file, offset, blockSize, i, BlockAddress(image, address));
        if !good {
          return false, aborted;
        }
        ghost var block := BlockTransfers(version, LaterId(id, i), i, BlockAddress(image, address),
                                          Chunk(file, offset, blockSize));
        assert log + sent + block == log + (sent + block);
        sent := sent + block;
        imageLength := imageLength - blockSize;
        address := (address + blockSize) % QUAD_RANGE;
        offset := (offset + blockSize) % QUAD_RANGE;
        i := i + 1;
      }
      Ends(s, version, image, file, maxBlockSize, id, w, r, sent, i);
      return true, false;
    }
  }

  lemma Ends(s: Script, version: Quad, image: Image, file: seq<Byte>, max: nat, id: nat, w: nat, r: nat,
             sent: seq<Transfer>, i: nat)
    requires max > 0 && id < COMMAND_IDS && i <= image.length
    requires Progress(s, version, image, file, max, id, w, r, sent, image.length, i)
    ensures sent == ImageTransfers(version, image, file, max, 0, 0, id) && i == Blocks(image, max, 0)
    ensures BlocksGood(s, version, image, file, max, 0, 0, id, w, r)
  {
    assert sent + [] == sent;
  }

  /** Other commands than the block command program nothing. */
  lemma NotProgramming(t: Target, cmd: Command)
    requires ValidCommand(cmd) && !cmd.code.DownloadBlock?
    ensures AppliedAll(t, [Request(Serialized(cmd))]) == t
  {
    var header := Header(cmd.version, cmd.id, cmd.code.Number(), cmd.code.RequestOperands());
    assert Serialized(cmd)[6] == header[6];
    hide Serialized;
    assert [Request(Serialized(cmd))][1..] == [];
    assert Applied(t, Request(Serialized(cmd))) == t;
  }

  lemma Framed(t: Target, start: Command, blocks: seq<Transfer>, end: Command, ended: bool)
    requires ValidCommand(start) && start.code.DownloadStart? && ValidCommand(end) && end.code.DownloadEnd?
    ensures AppliedAll(t, [Request(Serialized(start))]) == t
    ensures AppliedAll(t, [Request(Serialized(start))] + blocks + if ended then [Request(Serialized(end))] else []) ==
            AppliedAll(t, blocks)
  {
    NotProgramming(t, start);
    NotProgramming(AppliedAll(t, blocks), end);
    hide Serialized, Applied;
    AppliedConcat(t, [Request(Serialized(start))], blocks);
    AppliedConcat(t, [Request(Serialized(start))] + blocks, if ended then [Request(Serialized(end))] else []);
  }

  /** The bytes follow each other in the memory from an address on, around the 32-bit address space. */
  predicate PlacedAt(memory: map<int, Byte>, base: int, bytes: seq<Byte>) {
    forall k: nat :: k < |bytes| ==> Placed(memory, base + k, bytes[k])
  }

  predicate Placed(memory: map<int, Byte>, address: int, byte: Byte) {
    var x := address % 0x1_0000_0000;
    x in memory && memory[x] == byte
  }

  lemma ImagePlaced(memory: map<int, Byte>, image: Image, file: seq<Byte>)
    requires image.offset + image.length <= |file| && HoldsImage(memory, image, file, 0, image.length)
    ensures PlacedAt(memory, image.base, file[image.offset..image.offset + image.length])
  {
    var bytes := file[image.offset..image.offset + image.length];
    forall k: nat | k < image.length ensures Placed(memory, image.base + k, bytes[k]) {
      assert Peek(memory, Address(image.base, k)) == Some(file[image.offset + k]);
    }
  }

  /**
   A download that succeeds leaves the whole image in the boot loader's memory, where it belongs, and
   nothing else changed.
   */
  method DownloadAndApply(manager: BootloaderManager, t: Target, bcd: Bcd, kind: ObjectType, file: seq<Byte>,
                          maxBlockSize: nat, leftover: seq<Quad>) returns (result: bool, ghost memory: map<int, Byte>)
    requires manager.Valid() && manager.bus.log == []
    requires |leftover| == 2 && 0 < maxBlockSize <= 0x1_0000 && ImageOf(bcd, kind).length > 0
    modifies manager, manager.bus`writes, manager.bus`log, manager.bus`responses
    ensures memory == AppliedAll(t, manager.bus.log).memory
    ensures var image := ImageOf(bcd, kind);
            result ==>
              && image.offset + image.length <= |file|
              && HoldsImage(memory, image, file, 0, image.length)
              && RestUnchanged(t.memory, memory, image.base, 0, image.length)
    ensures result && kind.Application? ==>
              && bcd.imageOffset + bcd.imageLength <= |file|
              && PlacedAt(memory, bcd.imageBaseAddress, file[bcd.imageOffset..bcd.imageOffset + bcd.imageLength])
    ensures result && kind.CnE? ==>
              && bcd.cneOffset + bcd.cneLength <= |file|
              && PlacedAt(memory, 0, file[bcd.cneOffset..bcd.cneOffset + bcd.cneLength])
  {
    hide BlocksGood, ImageTransfers, Serialized, AppliedAll, EndGood;
    hide StartGood, HoldsImage, RestUnchanged, Blocks, StartOperands;
    ghost var s, version, id := manager.bus.script, manager.version, manager.nextId;
    ghost var w, r := manager.bus.writes + 1, manager.bus.responses + 1;
    result := manager.DownloadObject(bcd, kind, file, maxBlockSize, leftover);
    memory := AppliedAll(t, manager.bus.log).memory;
    if result {
      ghost var image := ImageOf(bcd, kind);
      GoodBlocksFit(s, version, image, file, maxBlockSize, 0, 0, NextId(id), w, r);
      ghost var n := Blocks(image, maxBlockSize, 0);
      ghost var start := StartCommand(version, id, bcd, kind);
      ghost var end := Command(DownloadEnd, version, LaterId(NextId(id), n), []);
      ImageReassembled(AppliedAll(t, [Request(Serialized(start))]), version, image, file, maxBlockSize, 0, 0,
                       NextId(id));
      Framed(t, start, ImageTransfers(version, image, file, maxBlockSize, 0, 0, NextId(id)), end, s.accepts(w + 2 * n));
      assert [] + [Request(Serialized(start))] == [Request(Serialized(start))];
      ImagePlaced(memory, image, file);
      ImageFields(bcd);
    }
  }

  // ----- an end reply that is none -----

  /** The answer to a first start command of protocol version 1, and a reply of zeros */
  function StartReply(): Raw {
    ReplyBytes(1, 0, DownloadStart.Number(), [0]) + seq(RESPONSE_BUFFER - 12, _ => 0)
  }

  function ZeroReply(): Raw {
    seq(RESPONSE_BUFFER, _ => 0)
  }

  function ZeroReplies(r: nat): Option<Raw> {
    Some(if r == 0 then StartReply() else ZeroReply())
  }

  lemma StartAnswered(bcd: Bcd, kind: ObjectType)
    ensures StartGood(StartCommand(1, 0, bcd, kind), Some(StartReply()))
  {
    ResponseRoundTrip(1, 0, DownloadStart.Number(), [0], seq(RESPONSE_BUFFER - 12, _ => 0));
  }

  lemma ZerosAnswerNothing()
    ensures forall id: nat :: !Answered(Command(DownloadEnd, 1, id, []), Some(ZeroReply()))
    ensures EndGood(Some(ZeroReply()), [0, 0], 0)
  {
    var raw := ZeroReply();
    assert QuadsAt(raw, 12, 1) == [QuadAt(raw, 12)] + QuadsAt(raw, 16, 0);
    assert Deserialized(raw, 2).operands == [0, 0];
  }

  /**
   A device that answers the start command of an empty image and returns zeros from then on: they do not
   answer the end command, but the download is reported as successful.
   */
  method UnansweredEnd() returns (manager: BootloaderManager, result: bool)
    ensures result && manager.version == 1
    ensures forall id: nat, r: nat | r > 0 ::
              !Answered(Command(DownloadEnd, 1, id, []), manager.bus.script.replies(r))
  {
    hide StartGood, EndGood, Answered, StartReply, ZeroReply, Serialized;
    var bus := new Bus(Script(_ => true, ZeroReplies));
    manager := new BootloaderManager(1, bus);
    var bcd := Bcd((0, 0), (0, 0), 0, 0, 0, 0, 0, 0, 0, 0, 0);
    StartAnswered(bcd, Application);
    ZerosAnswerNothing();
    result := manager.DownloadObject(bcd, Application, [], 0x200, [0, 0]);
  }

  // ----- a boot loader that answers as it should -----

  function Reply(version: Quad, id: nat, code: Byte, operands: seq<Quad>): Raw
    requires id < COMMAND_IDS && |operands| <= 10
  {
    ReplyBytes(version, id, code, operands) + seq(RESPONSE_BUFFER - 8 - 4 * |operands|, _ => 0)
  }

  /** Its replies to a start command with id 0, n blocks and the end command */
  function GoodReplies(version: Quad, n: nat, crc: Quad): nat -> Option<Raw> {
    (r: nat) => GoodReply(version, n, crc, r)
  }

  function GoodReply(version: Quad, n: nat, crc: Quad, r: nat): Option<Raw> {
    Some(if r == 0 then Reply(version, 0, 4, [0])
         else if r <= n then Reply(version, r % COMMAND_IDS, 5, [(r - 1) % QUAD_RANGE, 0])
         else Reply(version, r % COMMAND_IDS, 6, [crc, 0]))
  }

  lemma ReplyFields(version: Quad, id: nat, code: Byte, operands: seq<Quad>)
    requires id < COMMAND_IDS && |operands| <= 10
    ensures Deserialized(Reply(version, id, code, operands), |operands|) ==
            Response(version, id, code, |operands|, operands)
  {
    ResponseRoundTrip(version, id, code, operands, seq(RESPONSE_BUFFER - 8 - 4 * |operands|, _ => 0));
  }

  lemma SeqNumberAnswered(version: Quad, id: nat, i: Quad, address: Quad, len: Quad)
    requires version < 0x100 && id < COMMAND_IDS
    ensures BlockGood(BlockCommand(version, id, i, address, len), Some(Reply(version, id, 5, [i, 0])), i)
  {
    ReplyFields(version, id, 5, [i, 0]);
    hide Deserialized, Reply;
  }

  lemma GoodReplyIs(version: Quad, n: nat, crc: Quad, i: Quad)
    requires i < n
    ensures GoodReply(version, n, crc, 1 + i) == Some(Reply(version, LaterId(1, i), 5, [i, 0]))
  {
    hide Reply;
  }

  lemma GoodBlockReply(version: Quad, n: nat, crc: Quad, i: Quad, address: Quad, len: Quad)
    requires version < 0x100 && i < n
    ensures BlockGood(BlockCommand(version, LaterId(1, i), i, address, len), GoodReply(version, n, crc, 1 + i), i)
  {
    hide BlockGood, GoodReply, Reply, LaterId;
    GoodReplyIs(version, n, crc, i);
    SeqNumberAnswered(version, LaterId(1, i), i, address, len);
  }

  lemma GoodEnds(version: Quad, n: nat, image: Image, bcd: Bcd, kind: ObjectType)
    requires version < 0x100
    ensures StartGood(StartCommand(version, 0, bcd, kind), GoodReply(version, n, image.crc, 0))
    ensures EndGood(GoodReply(version, n, image.crc, 1 + n), [0, 0], image.crc)
  {
    ReplyFields(version, 0, 4, [0]);
    ReplyFields(version, (n + 1) % COMMAND_IDS, 6, [image.crc, 0]);
    hide Deserialized, Reply, StartOperands;
  }

  lemma NextGood(s: Script, version: Quad, image: Image, file: seq<Byte>, max: nat, done: nat, i: nat)
    requires max > 0 && i <= done < image.length
    ensures NextId(LaterId(1, i)) == LaterId(1, i + 1)
    ensures var len := BlockLength(image, max, done);
            && OneGood(s, version, LaterId(1, i), file, image.offset + done, len, i, BlockAddress(image, done),
                       1 + 2 * i, 1 + i)
            && BlocksGood(s, version, image, file, max, done + len, i + 1, LaterId(1, i + 1), 1 + 2 * (i + 1), 2 + i)
            ==> BlocksGood(s, version, image, file, max, done, i, LaterId(1, i), 1 + 2 * i, 1 + i)
  {
    hide OneGood, BlockLength, BlockAddress;
    assert 1 + 2 * i + 2 == 1 + 2 * (i + 1);
  }

  /** The script of this boot loader, for a download of n blocks */
  ghost predicate AnswersWell(s: Script, version: Quad, n: nat, crc: Quad) {
    (forall w: nat :: s.accepts(w)) && forall r: nat :: s.replies(r) == GoodReply(version, n, crc, r)
  }

  lemma GoodOne(s: Script, version: Quad, image: Image, file: seq<Byte>, done: nat, len: nat, i: nat, n: nat)
    requires version < 0x100 && AnswersWell(s, version, n, image.crc) && i < n && i <= done && len > 0
    requires done + len <= image.length
    requires image.offset + image.length <= |file| && image.offset + image.length <= 0x8000_0000
    ensures OneGood(s, version, LaterId(1, i), file, image.offset + done, len, i, BlockAddress(image, done),
                    1 + 2 * i, 1 + i)
  {
    hide BlockGood, GoodReply, LaterId, BlockAddress;
    GoodBlockReply(version, n, image.crc, i, BlockAddress(image, done), len);
    assert s.accepts(1 + 2 * i) && s.accepts(1 + 2 * i + 1);
    assert s.replies(1 + i) == GoodReply(version, n, image.crc, 1 + i);
  }

  lemma {:induction false} GoodBlocks(s: Script, version: Quad, image: Image, file: seq<Byte>, max: nat,
                                      done: nat, i: nat, n: nat)
    requires max > 0 && version < 0x100 && i <= done <= image.length && n == i + Blocks(image, max, done)
    requires image.offset + image.length <= |file| && image.offset + image.length <= 0x8000_0000
    requires AnswersWell(s, version, n, image.crc)
    ensures BlocksGood(s, version, image, file, max, done, i, LaterId(1, i), 1 + 2 * i, 1 + i)
    decreases image.length - done
  {
    hide AnswersWell, OneGood, BlocksGood, LaterId, NextId, BlockAddress;
    if done < image.length {
      var len := BlockLength(image, max, done);
      GoodOne(s, version, image, file, done, len, i, n);
      GoodBlocks(s, version, image, file, max, done + len, i + 1, n);
      NextGood(s, version, image, file, max, done, i);
    } else {
      NoBlocksGood(s, version, image, file, max, i);
    }
  }

  lemma NoBlocksGood(s: Script, version: Quad, image: Image, file: seq<Byte>, max: nat, i: nat)
    requires max > 0 && i <= image.length
    ensures BlocksGood(s, version, image, file, max, image.length, i, LaterId(1, i), 1 + 2 * i, 1 + i)
  {}

  lemma GoodScript(s: Script, version: Quad, bcd: Bcd, kind: ObjectType, file: seq<Byte>, max: nat)
    requires version < 0x100 && max > 0
    requires var image := ImageOf(bcd, kind);
             && image.offset + image.length <= |file| && image.offset + image.length <= 0x8000_0000
             && AnswersWell(s, version, Blocks(image, max, 0), image.crc)
    ensures var image := ImageOf(bcd, kind);
            && s.accepts(0) && StartGood(StartCommand(version, 0, bcd, kind), s.replies(0))
            && BlocksGood(s, version, image, file, max, 0, 0, NextId(0), 0 + 1, 0 + 1)
            && EndGood(s.replies(0 + 1 + Blocks(image, max, 0)), [0, 0], image.crc)
  {
    hide BlocksGood, StartGood, EndGood, GoodReply, Blocks, StartOperands, ImageOf, NextId, LaterId;
    var image := ImageOf(bcd, kind);
    FirstIds();
    GoodBlocks(s, version, image, file, max, 0, 0, Blocks(image, max, 0));
    GoodEnds(version, Blocks(image, max, 0), image, bcd, kind);
  }

  lemma FirstIds()
    ensures NextId(0) == 1 == LaterId(1, 0)
  {}

  /**
   With a protocol version that fits an octet, such a boot loader has the download of every object succeed that
   lies within the file and its first 2 GB, for every block size.
   */
  method GoodDownload(version: Quad, bcd: Bcd, kind: ObjectType, file: seq<Byte>, maxBlockSize: nat)
    returns (manager: BootloaderManager, result: bool)
    requires version < 0x100 && 0 < maxBlockSize <= 0x1_0000
    requires var image := ImageOf(bcd, kind);
             image.offset + image.length <= |file| && image.offset + image.length <= 0x8000_0000
    ensures result
  {
    hide BlocksGood, StartGood, EndGood, GoodReply, Serialized, ImageTransfers, Blocks, ImageOf, StartOperands;
    hide NextId, LaterId;
    var image := ImageOf(bcd, kind);
    var script := Script(_ => true, GoodReplies(version, Blocks(image, maxBlockSize, 0), image.crc));
    assert AnswersWell(script, version, Blocks(image, maxBlockSize, 0), image.crc);
    GoodScript(script, version, bcd, kind, file, maxBlockSize);
    var bus := new Bus(script);
    manager := new BootloaderManager(version, bus);
    result := manager.DownloadObject(bcd, kind, file, maxBlockSize, [0, 0]);
  }
}
