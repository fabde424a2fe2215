/**
 The application's command handling (packet_rx_task and packet_state_machine in src/app/packet.c): reading
 and writing the parameters and the firmware information over the serial line.
 */
module AppPacket {
  import opened Bytes
  import opened Crc
  import opened CrcTheory
  import opened Memory
  import opened FlashIo
  import opened Protocol
  import opened Usart
  import opened Update
  import opened CrashSafety
  import Host
  import Diagnostics
  import TxPath

  const TAG_LOCK: byte := 6
  const TAG_UNLOCK: byte := 7
  const TAG_DIAG: byte := 8

  /** The messages handed to packet_tx_enqueue_data and the flash commands issued for one packet. */
  datatype Served = Served(replies: seq<seq<byte>>, ops: seq<FlashOp>)

  /** flash_io_read_params or flash_io_read_fw_info, compared with the length asked for: an empty read is
      always granted. */
  predicate ReadGranted(offset: nat, length: nat, size: nat) {
    offset + length <= size || length == 0
  }

  /** The answer to a read of the parameters (or, with params false, of the firmware information). */
  function ReadReply(f: Image, params: bool, offset: nat, length: nat): seq<byte>
    requires offset < 0x100 && length < 0x100
  {
    var from := if params then PARAMS_OFFSET else FW_INFO_OFFSET;
    if ReadGranted(offset, length, if params then PARAMETERS_LENGTH else FIRMWARE_INFO_LENGTH)
    then Frame(TAG_ACK, f[from + offset..from + offset + length], false)
    else NACK_PACKET
  }

  /** The flash commands of a parameter write of that many bytes. */
  function WriteCommands(p: Packet, length: nat): seq<FlashOp>
    requires length < 0x100
  {
    if 0 < length <= PARAMETERS_LENGTH then ParamsOps(p[2..2 + length]) else []
  }

  /** The flash commands behind a packet. */
  function Commands(p: Packet): seq<FlashOp> {
    var attr := Extract(p, false);
    if attr.tag == TAG_PW then WriteCommands(p, attr.length as nat) else []
  }

  /** A request for the log is only made while the log fits a response. */
  predicate Answerable(f: Image, p: Packet) {
    Extract(p, false).tag == TAG_DIAG ==> Diagnostics.Readable(f)
  }

  function Replies(f: Image, p: Packet): seq<seq<byte>>
    requires Answerable(f, p)
  {
    var attr := Extract(p, false);
    var offset, length := attr.offset as nat, attr.length as nat;
    if attr.tag == TAG_PR then [ReadReply(f, true, offset, length)]
    else if attr.tag == TAG_PW then [if length > PARAMETERS_LENGTH then NACK_PACKET else ACK_PACKET]
    else if attr.tag == TAG_FIR then [ReadReply(f, false, offset, length)]
    else if attr.tag == TAG_DIAG then [Frame(TAG_ACK, f[DIAG_OFFSET..DIAG_OFFSET + Diagnostics.Words(f)], false)]
    else if attr.tag in {TAG_RST, TAG_LOCK, TAG_UNLOCK} then [ACK_PACKET]
    else if attr.tag in {TAG_ACK, TAG_NACK} then []
    else [NACK_PACKET]
  }

  function Serve(f: Image, p: Packet): Served
    requires Answerable(f, p)
  {
    Served(Replies(f, p), Commands(p))
  }

  class CommandTask {
    const io: FlashDriver
    const packetBuf: array<byte>
    var packetLineFree: bool
    /** The messages handed to packet_tx_enqueue_data. */
    var outbox: seq<seq<byte>>

    ghost predicate Valid() reads this, io, io.flash {
      io.Valid() && packetBuf.Length >= SPAN && packetBuf != io.flash.cells
    }

    constructor (driver: FlashDriver, memory: array<byte>)
      requires driver.Valid() && memory.Length >= SPAN && memory != driver.flash.cells
      ensures Valid() && outbox == [] && io == driver && packetBuf == memory
    {
      io, packetBuf, packetLineFree, outbox := driver, memory, true, [];
    }

    /** The PR branch (params) and the FIR branch of packet_state_machine. */
    method SendRegion(params: bool, offset: nat, length: nat)
      requires Valid() && offset < 0x100 && length < 0x100
      modifies this`outbox
      ensures Valid()
      ensures outbox == old(outbox) + [ReadReply(io.flash.Contents(), params, offset, length)]
    {
      hide Frame;
      var response := new byte[DMA_RX_BUFFER_SIZE](_ => 0);
      ghost var from := if params then PARAMS_OFFSET else FW_INFO_OFFSET;
      var n;
      if params {
        n := io.ReadParams(response, 2, offset, length);
      } else {
        n := io.ReadFwInfo(response, 2, offset, length);
      }
      if n == length {
        assert response[2..2 + length] == io.flash.Contents()[from + offset..from + offset + length];
        CreatePacket(response, TAG_ACK, length);
        outbox := outbox + [response[..length + 4]];
      } else {
        outbox := outbox + [NACK_PACKET];
      }
    }

    /** The PW branch. */
    method StoreParams(length: nat)
      requires Valid() && length < 0x100
      modifies this`outbox, io.flash, io.flash.cells
      ensures Valid()
      ensures outbox == old(outbox) + [if length > PARAMETERS_LENGTH then NACK_PACKET else ACK_PACKET]
      ensures var ops := WriteCommands(packetBuf[..], length);
        && io.flash.log == old(io.flash.log) + ops
        && io.flash.Contents() == ApplyAll(old(io.flash.Contents()), ops)
    {
      hide ParamsOps;
      NoCommands(io.flash.Contents());
      assert packetBuf[..][2..2 + length] == packetBuf[2..2 + length];
      var n := io.WriteParams(packetBuf, 2, 0, length);
      if n == length {
        outbox := outbox + [ACK_PACKET];
      } else {
        outbox := outbox + [NACK_PACKET];
      }
    }

    /** The DIAG branch. */
    method SendDiagnostic()
      requires Valid() && Diagnostics.Readable(io.flash.Contents())
      modifies this`outbox
      ensures Valid()
      ensures var f := io.flash.Contents();
        outbox == old(outbox) + [Frame(TAG_ACK, f[DIAG_OFFSET..DIAG_OFFSET + Diagnostics.Words(f)], false)]
    {
      hide Frame, Diagnostics.Words;
      var response := new byte[DMA_RX_BUFFER_SIZE](_ => 0);
      var n := Diagnostics.ReadDiagnostic(io.flash, response, 2);
      assert response[2..2 + n] == io.flash.Contents()[DIAG_OFFSET..DIAG_OFFSET + n];
      CreatePacket(response, TAG_ACK, n);
      outbox := outbox + [response[..n + 4]];
    }

    /** packet_rx_task from the moment the packet is in packetBuf. */
    method Handle()
      requires Valid() && Answerable(io.flash.Contents(), packetBuf[..])
      modifies this, io.flash, io.flash.cells
      ensures Valid()
      ensures var tag := Extract(packetBuf[..], false).tag;
        packetLineFree == if tag == TAG_LOCK then false else if tag == TAG_UNLOCK then true else old(packetLineFree)
      ensures var s := Serve(old(io.flash.Contents()), packetBuf[..]);
        && outbox == old(outbox) + s.replies
        && io.flash.log == old(io.flash.log) + s.ops
        && io.flash.Contents() == ApplyAll(old(io.flash.Contents()), s.ops)
    {
      hide Extract, ReadReply, WriteCommands, ApplyAll, Frame;
      var attr := ExtractPacketAttr(packetBuf, false);
      var offset, length := attr.offset as nat, attr.length as nat;
      ghost var f := io.flash.Contents();
      NoCommands(f);
      if attr.tag == TAG_PR {
        SendRegion(true, offset, length);
      } else if attr.tag == TAG_PW {
        // the offset extracted from a PW packet is always 0
        StoreParams(length);
      } else if attr.tag == TAG_FIR {
        SendRegion(false, offset, length);
      } else if attr.tag == TAG_RST {
        outbox := outbox + [ACK_PACKET];
      } else if attr.tag == TAG_LOCK {
        packetLineFree := false;
        outbox := outbox + [ACK_PACKET];
      } else if attr.tag == TAG_UNLOCK {
        packetLineFree := true;
        outbox := outbox + [ACK_PACKET];
      } else if attr.tag == TAG_DIAG {
        SendDiagnostic();
      } else if attr.tag != TAG_ACK && attr.tag != TAG_NACK {
        outbox := outbox + [NACK_PACKET];
      }
    }
  }

  lemma NoCommands(f: Image)
    ensures ApplyAll(f, []) == f
  {
  }

  // ----- parameters end to end -----

  function FlashAfter(f: Image, p: Packet): Image {
    ApplyAll(f, Commands(p))
  }

  function FlashAfterAll(f: Image, ps: seq<Packet>): Image
    decreases |ps|
  {
    if ps == [] then f else FlashAfterAll(FlashAfter(f, ps[0]), ps[1..])
  }

  /** A parameter write that is accepted and not empty. */
  predicate Writes(p: Packet) {
    Extract(p, false).tag == TAG_PW && 0 < (Extract(p, false).length as nat) <= PARAMETERS_LENGTH
  }

  /** The parameters after a series of commands, from the commands alone: the latest accepted write, then
      blanks. */
  function Stored(params: seq<byte>, ps: seq<Packet>): (s: seq<byte>)
    requires |params| == PARAMETERS_LENGTH
    ensures |s| == PARAMETERS_LENGTH
    decreases |ps|
  {
    if ps == [] then params
    else if Writes(ps[0]) then
      var length := Extract(ps[0], false).length as nat;
      Stored(ps[0][2..2 + length] + Blanks(PARAMETERS_LENGTH - length), ps[1..])
    else Stored(params, ps[1..])
  }

  function Parameters(f: Image): (s: seq<byte>)
    ensures |s| == PARAMETERS_LENGTH
  {
    f[PARAMS_OFFSET..PARAMS_OFFSET + PARAMETERS_LENGTH]
  }

  lemma WriteCells(f: Image, data: seq<byte>)
    requires 0 < |data| <= PARAMETERS_LENGTH
    ensures var g := ApplyAll(f, ParamsOps(data));
      forall i :: 0 <= i < FLASH_SIZE ==>
        g[i] == if i < PARAMS_OFFSET || i >= APP_OFFSET then f[i]
                else if i - PARAMS_OFFSET < |data| then data[i - PARAMS_OFFSET] else BLANK
  {
    hide Burn, Overlay, ApplyAll;
    var blank := Erased(f, SectorStart(PARAMS_SECTOR), SectorStart(PARAMS_SECTOR + 1));
    ApplyOne(f, Erase(PARAMS_SECTOR));
    ApplyAllConcat(f, [Erase(PARAMS_SECTOR)], BytewiseOps(PARAMS_OFFSET, data));
    BytewiseOverlay(blank, PARAMS_OFFSET, data);
    OverlayOnBlank(blank, PARAMS_OFFSET, data);
    var g := Overlay(blank, PARAMS_OFFSET, data);
    var run := g[PARAMS_OFFSET..PARAMS_OFFSET + |data|];
    forall i | PARAMS_OFFSET <= i < PARAMS_OFFSET + |data| ensures g[i] == data[i - PARAMS_OFFSET] {
      assert g[i] == run[i - PARAMS_OFFSET];
    }
  }

  /** What a parameter write leaves in the whole sector. */
  lemma WriteResult(f: Image, data: seq<byte>)
    requires 0 < |data| <= PARAMETERS_LENGTH
    ensures var g := ApplyAll(f, ParamsOps(data));
      && g[PARAMS_OFFSET..APP_OFFSET] == data + Blanks(PARAMS_SIZE - |data|)
      && g[..BL_SIZE] == f[..BL_SIZE] && App(g) == App(f)
  {
    hide ApplyAll, ParamsOps;
    WriteCells(f, data);
  }

  lemma CommandEffect(f: Image, p: Packet)
    ensures var g := FlashAfter(f, p);
      && g[..BL_SIZE] == f[..BL_SIZE] && App(g) == App(f)
      && Parameters(g) == Stored(Parameters(f), [p])
  {
    hide Extract, ParamsOps, ApplyAll, Frame;
    NoCommands(f);
    assert [p][1..] == [];
    if Writes(p) {
      var data := p[2..2 + Extract(p, false).length as nat];
      WriteResult(f, data);
      ParametersOfSector(FlashAfter(f, p), data);
    }
  }

  lemma ParametersOfSector(g: Image, data: seq<byte>)
    requires 0 < |data| <= PARAMETERS_LENGTH
    requires g[PARAMS_OFFSET..APP_OFFSET] == data + Blanks(PARAMS_SIZE - |data|)
    ensures Parameters(g) == data + Blanks(PARAMETERS_LENGTH - |data|)
  {
    var sector, all := g[PARAMS_OFFSET..APP_OFFSET], data + Blanks(PARAMETERS_LENGTH - |data|);
    forall i | 0 <= i < PARAMETERS_LENGTH ensures Parameters(g)[i] == all[i] {
      assert Parameters(g)[i] == sector[i];
    }
  }

  lemma {:induction false} CommandsEffect(f: Image, ps: seq<Packet>)
    ensures var g := FlashAfterAll(f, ps);
      && g[..BL_SIZE] == f[..BL_SIZE] && App(g) == App(f)
      && Parameters(g) == Stored(Parameters(f), ps)
    decreases |ps|
  {
    hide FlashAfter, Extract;
    if ps != [] {
      CommandEffect(f, ps[0]);
      CommandsEffect(FlashAfter(f, ps[0]), ps[1..]);
      assert [ps[0]][1..] == [];
    }
  }

  /**
   Parameters end to end. After any commands, a granted read of the parameters is answered by one frame the
   host accepts, carrying the requested slice of the latest accepted write (blanks beyond its length); the
   bootloader and the application are as they were.
   */
  lemma ParametersEndToEnd(f: Image, ps: seq<Packet>, p: Packet)
    requires Extract(p, false).tag == TAG_PR
    requires (Extract(p, false).offset as nat) + (Extract(p, false).length as nat) <= PARAMETERS_LENGTH
    ensures var g := FlashAfterAll(f, ps);
      var offset, length := Extract(p, false).offset as nat, Extract(p, false).length as nat;
      var s := Serve(g, p);
      && |s.replies| == 1 && s.ops == []
      && Host.IsAck(s.replies[0])
      && |s.replies[0]| == length + 4 && s.replies[0][1] == length as byte
      && s.replies[0][2..2 + length] == Stored(Parameters(f), ps)[offset..offset + length]
      && g[..BL_SIZE] == f[..BL_SIZE] && App(g) == App(f)
  {
    hide Extract, FlashAfterAll, Stored, Serve, Frame, Host.IsAck;
    CommandsEffect(f, ps);
    var g := FlashAfterAll(f, ps);
    var offset, length := Extract(p, false).offset as nat, Extract(p, false).length as nat;
    var data := g[PARAMS_OFFSET + offset..PARAMS_OFFSET + offset + length];
    ReadServed(g, p);
    ReplyAccepted(data);
    SliceOfParameters(g, offset, length);
  }

  lemma ReadServed(g: Image, p: Packet)
    requires Extract(p, false).tag == TAG_PR
    requires (Extract(p, false).offset as nat) + (Extract(p, false).length as nat) <= PARAMETERS_LENGTH
    ensures var offset, length := Extract(p, false).offset as nat, Extract(p, false).length as nat;
      Serve(g, p) == Served([Frame(TAG_ACK, g[PARAMS_OFFSET + offset..PARAMS_OFFSET + offset + length], false)], [])
  {
    hide Extract, Frame;
  }

  lemma SliceOfParameters(g: Image, offset: nat, length: nat)
    requires offset + length <= PARAMETERS_LENGTH
    ensures g[PARAMS_OFFSET + offset..PARAMS_OFFSET + offset + length] == Parameters(g)[offset..offset + length]
  {
    SliceOfSlice(g, PARAMS_OFFSET, PARAMS_OFFSET + PARAMETERS_LENGTH, offset, offset + length);
  }

  /** The firmware information is out of reach of the commands: a granted read always answers with what was
      there before any of them. */
  lemma FirmwareInfoEndToEnd(f: Image, ps: seq<Packet>, p: Packet)
    requires Extract(p, false).tag == TAG_FIR
    requires (Extract(p, false).offset as nat) + (Extract(p, false).length as nat) <= FIRMWARE_INFO_LENGTH
    ensures var offset, length := Extract(p, false).offset as nat, Extract(p, false).length as nat;
      var s := Serve(FlashAfterAll(f, ps), p);
      && |s.replies| == 1 && s.ops == []
      && Host.IsAck(s.replies[0]) && |s.replies[0]| == length + 4
      && s.replies[0][2..2 + length] == f[FW_INFO_OFFSET + offset..FW_INFO_OFFSET + offset + length]
  {
    hide Extract, FlashAfterAll, Stored, Serve, Frame, Host.IsAck, App;
    CommandsEffect(f, ps);
    var g := FlashAfterAll(f, ps);
    var offset, length := Extract(p, false).offset as nat, Extract(p, false).length as nat;
    InfoServed(g, p);
    ReplyAccepted(g[FW_INFO_OFFSET + offset..FW_INFO_OFFSET + offset + length]);
    SliceOfApp(f, g, FW_INFO_OFFSET + offset, length);
  }

  lemma InfoServed(g: Image, p: Packet)
    requires Extract(p, false).tag == TAG_FIR
    requires (Extract(p, false).offset as nat) + (Extract(p, false).length as nat) <= FIRMWARE_INFO_LENGTH
    ensures var offset, length := Extract(p, false).offset as nat, Extract(p, false).length as nat;
      Serve(g, p) == Served([Frame(TAG_ACK, g[FW_INFO_OFFSET + offset..FW_INFO_OFFSET + offset + length], false)], [])
  {
    hide Extract, Frame;
  }

  lemma SliceOfApp(f: Image, g: Image, at: nat, length: nat)
    requires App(f) == App(g) && APP_OFFSET <= at && at + length <= FLASH_SIZE
    ensures f[at..at + length] == g[at..at + length]
  {
    var k := at - APP_OFFSET;
    SliceOfSlice(g, APP_OFFSET, FLASH_SIZE, k, k + length);
    SliceOfSlice(f, APP_OFFSET, FLASH_SIZE, k, k + length);
    assert g[APP_OFFSET..FLASH_SIZE] == App(g) && f[APP_OFFSET..FLASH_SIZE] == App(f);
  }

  lemma ReplyAccepted(data: seq<byte>)
    requires |data| < 0x100
    ensures var r := Frame(TAG_ACK, data, false);
      Host.IsAck(r) && |r| == |data| + 4 && r[1] == |data| as byte && r[2..2 + |data|] == data
  {
    hide Register, Frame, BitsOf, AllZero;
    FrameValid(TAG_ACK, data, false);
    ReplyLayout(data);
    ByteValue(|data|);
  }

  lemma ReplyLayout(data: seq<byte>)
    requires |data| < 0x100
    ensures var r := Frame(TAG_ACK, data, false);
      |r| == |data| + 4 && r[0] == TAG_ACK && r[1] == |data| as byte && r[2..2 + |data|] == data
  {
    hide Check;
  }

  /** An accepted write also wipes the watchdog log: it shares the erased sector with the parameters. */
  lemma WriteErasesLog(f: Image, p: Packet)
    requires Writes(p)
    ensures Diagnostics.Logs(FlashAfter(f, p), [])
  {
    hide Extract, ParamsOps, ApplyAll, Frame;
    var data := p[2..2 + Extract(p, false).length as nat];
    WriteResult(f, data);
    var g := FlashAfter(f, p);
    forall i | 0 <= i < Diagnostics.SLOTS ensures Diagnostics.Slot(g, i) == Diagnostics.BLANK_SLOT {
      var k := DIAG_OFFSET - PARAMS_OFFSET + 2 * i;
      SliceOfSlice(g, PARAMS_OFFSET, APP_OFFSET, k, k + 2);
      BlankTail(data, k);
    }
  }

  lemma BlankTail(data: seq<byte>, k: nat)
    requires |data| <= k && k + 2 <= PARAMS_SIZE
    ensures (data + Blanks(PARAMS_SIZE - |data|))[k..k + 2] == [0xFF, 0xFF]
  {
  }

  /** The commands are among what CrashSafety lets the application do. */
  lemma CommandsStayInParamsSector(p: Packet, i: nat)
    requires i < |Commands(p)|
    ensures InParamsSector(Commands(p)[i])
  {
    hide Extract, ParamsOps, InParamsSector;
    if Writes(p) {
      ParamsOpsInSector(p[2..2 + Extract(p, false).length as nat], i);
    }
  }

  lemma ParamsOpsInSector(data: seq<byte>, i: nat)
    requires |data| <= PARAMETERS_LENGTH && i < |ParamsOps(data)|
    ensures InParamsSector(ParamsOps(data)[i])
  {
  }

  /** Every reply is short enough for TxPath.ShortMessagesConserved, but for a log of more than 196 values. */
  lemma RepliesAreShort(f: Image, p: Packet, i: nat)
    requires Answerable(f, p) && i < |Replies(f, p)|
    ensures 4 <= |Replies(f, p)[i]| <= 256
    ensures Extract(p, false).tag != TAG_DIAG ==> |Replies(f, p)[i]| <= 4 + FIRMWARE_INFO_LENGTH <= TxPath.SHORT
    ensures Extract(p, false).tag == TAG_DIAG ==>
      (|Replies(f, p)[i]| <= TxPath.SHORT <==> Diagnostics.Words(f) <= TxPath.SHORT - 4)
  {
    hide Extract, Frame, Diagnostics.Words;
  }

  /** A request for the log finds room in the response if and only if at most 504 values were dumped. It is then
      answered by one frame the host accepts, which carries the first quarter of the log: all of it if and only if
      nothing was ever dumped. */
  lemma DiagnosticEndToEnd(f: Image, values: seq<seq<byte>>, p: Packet)
    requires Extract(p, false).tag == TAG_DIAG && Diagnostics.Logs(f, values)
    ensures Answerable(f, p) <==> |values| <= 2 * Diagnostics.READ_CAPACITY
    ensures Answerable(f, p) ==>
      var n := (|values| + 1) / 2;
      && |Replies(f, p)| == 1 && Commands(p) == []
      && var r := Replies(f, p)[0];
      && Host.IsAck(r) && |r| == n + 4 && |Diagnostics.Flatten(values)| == 2 * |values|
      && r[2..2 + n] == Diagnostics.Flatten(values)[..n]
      && (r[2..2 + n] == Diagnostics.Flatten(values) <==> values == [])
  {
    hide Extract, Frame, Host.IsAck, Diagnostics.Words, Diagnostics.Logs, Diagnostics.Readable;
    Diagnostics.WordsOfLog(f, values);
    Diagnostics.ReadsQuarter(f, values);
    if Answerable(f, p) {
      ReplyAccepted(f[DIAG_OFFSET..DIAG_OFFSET + Diagnostics.Words(f)]);
    }
  }

  /** The packets that are acknowledged. */
  predicate Granted(f: Image, p: Packet) {
    var attr := Extract(p, false);
    var offset, length := attr.offset as nat, attr.length as nat;
    || attr.tag in {TAG_RST, TAG_LOCK, TAG_UNLOCK, TAG_DIAG}
    || (attr.tag == TAG_PW && length <= 20)
    || (attr.tag == TAG_PR && (offset + length <= 20 || length == 0))
    || (attr.tag == TAG_FIR && (offset + length <= 24 || length == 0))
  }

  /** For every packet and any flash contents: ACK and NACK packets get no reply; of the others the host accepts
      the reply if and only if the packet is granted, and every refusal, that of a damaged packet included, is the
      same four bytes. */
  lemma ReplyIff(f: Image, p: Packet)
    requires Answerable(f, p)
    ensures var tag := Extract(p, false).tag;
      && |Replies(f, p)| == (if tag == TAG_ACK || tag == TAG_NACK then 0 else 1)
      && (Replies(f, p) != [] ==>
            && (Host.IsAck(Replies(f, p)[0]) <==> Granted(f, p))
            && (!Granted(f, p) ==> Replies(f, p)[0] == [5, 0, 30, 0])
            && (tag in {TAG_RST, TAG_LOCK, TAG_UNLOCK, TAG_PW} && Granted(f, p) ==> Replies(f, p)[0] == [4, 0, 152, 3]))
  {
    hide Extract, Frame, Host.IsAck, Diagnostics.Words, Diagnostics.Readable;
    Host.AckRecognized(Ack);
    Host.AckRecognized(Nack);
    var attr := Extract(p, false);
    if attr.tag == TAG_PR || attr.tag == TAG_FIR {
      ReadReplyIff(f, attr.tag == TAG_PR, attr.offset as nat, attr.length as nat);
    } else if attr.tag == TAG_DIAG {
      DiagnosticFits(f);
      ReplyAccepted(f[DIAG_OFFSET..DIAG_OFFSET + Diagnostics.Words(f)]);
    }
  }

  lemma DiagnosticFits(f: Image)
    requires Diagnostics.Readable(f)
    ensures Diagnostics.Words(f) <= 252
  {
    hide Diagnostics.Words;
  }

  lemma ReadReplyIff(f: Image, params: bool, offset: nat, length: nat)
    requires offset < 0x100 && length < 0x100
    ensures var r := ReadReply(f, params, offset, length);
      var granted := offset + length <= (if params then 20 else 24) || length == 0;
      && (Host.IsAck(r) <==> granted) && (!granted ==> r == [5, 0, 30, 0])
  {
    hide Frame, Host.IsAck;
    Host.AckRecognized(Nack);
    var from := if params then PARAMS_OFFSET else FW_INFO_OFFSET;
    ReplyAccepted(f[from + offset..from + offset + length]);
  }

  /** A damaged packet is refused and changes nothing. */
  lemma DamagedPacketRefused(f: Image, tag: byte, data: seq<byte>, r: seq<byte>, p: Packet)
    requires |data| < 0x100 && Damaged(Frame(tag, data, false), r, false) && r <= p
    ensures Answerable(f, p) && Replies(f, p) == [[5, 0, 30, 0]] && Commands(p) == []
  {
    hide Damaged, Frame, Extract;
    DamagedFrameRefused(tag, data, false, r, p);
  }
}
