/**
 src/bl/update.c: the update state machine. Iterate is one pass of its while loop as a function of the
 statics, the flash and what the pass observes; UpdateMachine is the loop itself, on the real flash
 driver, timer and packet buffer, proved to compute Iterate pass by pass.
 */
module Update {
  import opened Bytes
  import opened Memory
  import opened FlashIo
  import opened Protocol
  import opened Stimer

  datatype Status =
    | InfiniteLoop | WaitForSyncReq | WaitForUpdateReq | WaitForDevId | WaitForFwLength
    | EraseOldFw | ReceiveUpdate | LastCheck | Done

  /** updateStatus++ */
  function Next(s: Status): Status {
    match s
    case InfiniteLoop => WaitForSyncReq
    case WaitForSyncReq => WaitForUpdateReq
    case WaitForUpdateReq => WaitForDevId
    case WaitForDevId => WaitForFwLength
    case WaitForFwLength => EraseOldFw
    case EraseOldFw => ReceiveUpdate
    case ReceiveUpdate => LastCheck
    case LastCheck => Done
    case Done => Done
  }

  /** The statics of update.c and flash-io.c, and the timeout of update_state_machine. */
  datatype Device = Device(
    status: Status,
    last: Status,
    updateSize: nat,
    written: nat,
    lastWriteSuccess: bool,
    upload: Upload,
    timeout: Timer)

  /** What one pass observes: the tick count at the ping, the mailbox, and the tick count later on. */
  datatype Input = Input(pingAt: nat, packet: Option<Packet>, actAt: nat)

  datatype Reply = Silent | Ack | Nack

  /** What one pass does to the flash. */
  datatype Action =
    | Nothing
    | ErasePartition
    | Write(chunk: seq<byte>, len: nat)
    | Commit

  datatype Outcome = Outcome(dev: Device, action: Action, reply: Reply)

  /** The flash commands behind an action, given the flash-io.c statics before it. */
  function Ops(u: Upload, a: Action): seq<FlashOp>
    requires a.Write? ==> 4 <= |a.chunk| && a.len <= |a.chunk|
  {
    match a
    case Nothing => []
    case ErasePartition => PARTITION_ERASE
    case Write(chunk, len) => WriteOps(u, chunk, len)
    case Commit => [Program(APP_OFFSET, u.entry)]
  }

  /** The state after reset, with the timeout started. */
  function Boot(ticks: nat): Device {
    Device(WaitForSyncReq, WaitForSyncReq, 0, 0, false, RESET_UPLOAD, Start(ticks, 5000, false))
  }

  function Stay(d: Device, reply: Reply): (o: Outcome)
    ensures !o.action.Write?
  {
    Outcome(d, Nothing, reply)
  }

  /** Acknowledge, remember the state left, go to the next one. */
  function Accept(d: Device, timeout: Timer): (o: Outcome)
    ensures !o.action.Write?
  {
    Outcome(d.(last := d.status, status := Next(d.status), timeout := timeout), Nothing, Ack)
  }

  function OnSyncReq(d: Device, p: Packet, t: nat): (o: Outcome)
    ensures !o.action.Write?
  {
    var tag := Extract(p, false).tag;
    if tag == TAG_SYNC_REQ then Accept(d, Reload(d.timeout, t))
    else if tag == TAG_RST then Stay(d, Ack)
    else Stay(d, Nack)
  }

  function OnUpdateReq(d: Device, p: Packet, t: nat): (o: Outcome)
    ensures !o.action.Write?
  {
    if Extract(p, false).tag == TAG_UPDATE_REQ then Accept(d, Reload(d.timeout, t)) else Stay(d, Silent)
  }

  function OnDevId(d: Device, f: Image, p: Packet, t: nat): (o: Outcome)
    ensures !o.action.Write?
  {
    if Extract(p, false).tag == TAG_DEV_ID_CHECK && p[2..6] == DeviceId(f) then Accept(d, Reload(d.timeout, t))
    else Stay(d, Nack)
  }

  function OnFwLength(d: Device, p: Packet, t: nat): (o: Outcome)
    ensures !o.action.Write?
  {
    if Extract(p, false).tag == TAG_FW_UPDATE_SIZE then
      var d' := d.(updateSize := CheckUpdateSize(p[2..6]));
      if d'.updateSize != 0 then Accept(d', Reload(d.timeout, t)) else Stay(d', Nack)
    else Stay(d, Nack)
  }

  function OnEraseReq(d: Device, p: Packet, t: nat): (o: Outcome)
    ensures !o.action.Write?
  {
    if Extract(p, false).tag == TAG_ERASE_REQ then
      Accept(d, Start(t, 10000, false)).(action := ErasePartition)
    else Stay(d, Silent)
  }

  function WriteChunk(d: Device, p: Packet, len: nat, t: nat): (o: Outcome)
    requires len < 0x100
  {
    Outcome(d.(upload := AfterWrite(d.upload, p[2..], len), written := d.written + len,
               lastWriteSuccess := true, timeout := Reload(d.timeout, t)),
            Write(p[2..], len), Ack)
  }

  function OnChunk(d: Device, p: Packet, t: nat): (o: Outcome)
    ensures o.action.Write? ==> 4 <= |o.action.chunk| && o.action.len < 0x100 && o.action.len <= |o.action.chunk|
  {
    var attr := Extract(p, true);
    if attr.tag == TAG_FW_NEW then WriteChunk(d, p, attr.length as nat, t)
    else if attr.tag == TAG_FW_REP then
      if d.lastWriteSuccess then Stay(d.(timeout := Reload(d.timeout, t)), Ack)
      else WriteChunk(d, p, attr.length as nat, t)
    else Stay(d, Nack)
  }

  function Receive(d: Device, packet: Option<Packet>, t: nat): (o: Outcome)
    ensures o.action.Write? ==> 4 <= |o.action.chunk| && o.action.len < 0x100 && o.action.len <= |o.action.chunk|
  {
    var d' := if d.last == EraseOldFw then d.(last := d.status, written := 0, lastWriteSuccess := false) else d;
    if packet.Some? && d'.written < d'.updateSize then OnChunk(d', packet.value, t)
    else if d'.written == d'.updateSize then
      Outcome(d'.(last := d'.status, status := Next(d'.status)), Commit, Silent)
    else Stay(d', Silent)
  }

  /** The switch of update_state_machine. */
  function Switch(d: Device, f: Image, packet: Option<Packet>, t: nat): (o: Outcome)
    ensures o.action.Write? ==> 4 <= |o.action.chunk| && o.action.len < 0x100 && o.action.len <= |o.action.chunk|
  {
    match d.status
    case InfiniteLoop =>
      if packet.Some? then
        Stay(d.(last := d.status, status := Next(d.status), timeout := Start(t, 5000, false)), Silent)
      else Stay(d, Silent)
    case WaitForSyncReq => if packet.Some? then OnSyncReq(d, packet.value, t) else Stay(d, Silent)
    case WaitForUpdateReq => if packet.Some? then OnUpdateReq(d, packet.value, t) else Stay(d, Silent)
    case WaitForDevId => if packet.Some? then OnDevId(d, f, packet.value, t) else Stay(d, Silent)
    case WaitForFwLength => if packet.Some? then OnFwLength(d, packet.value, t) else Stay(d, Silent)
    case EraseOldFw => if packet.Some? then OnEraseReq(d, packet.value, t) else Stay(d, Silent)
    case ReceiveUpdate => Receive(d, packet, t)
    case LastCheck => Stay(d.(status := if Bootable(f) then Next(d.status) else InfiniteLoop), Silent)
    case Done => Stay(d, Silent)
  }

  /** The ping that opens every pass. */
  function Polled(d: Device, t: nat): Device {
    d.(timeout := Ping(d.timeout, t), status := if Fires(d.timeout, t) then LastCheck else d.status)
  }

  /** One pass of the while loop. */
  function Iterate(d: Device, f: Image, x: Input): (o: Outcome)
    ensures o.action.Write? ==> 4 <= |o.action.chunk| && o.action.len < 0x100 && o.action.len <= |o.action.chunk|
  {
    Switch(Polled(d, x.pingAt), f, x.packet, x.actAt)
  }

  lemma NoOps(u: Upload)
    ensures Ops(u, Nothing) == [] && forall f :: ApplyAll(f, Ops(u, Nothing)) == f
  {
  }

  lemma EraseCommands(u: Upload)
    ensures Ops(u, ErasePartition) == PARTITION_ERASE
  {
  }

  lemma CommitOps(u: Upload)
    ensures Ops(u, Commit) == [Program(APP_OFFSET, u.entry)]
  {
  }

  function FlashAfter(d: Device, f: Image, x: Input): Image {
    ApplyAll(f, Ops(d.upload, Iterate(d, f, x).action))
  }

  /** Passes one after the other, over their observations. */
  function Iterated(d: Device, f: Image, xs: seq<Input>): (Device, Image) {
    if xs == [] then (d, f)
    else
      var (e, g) := Iterated(d, f, xs[..|xs| - 1]);
      (Iterate(e, g, xs[|xs| - 1]).dev, FlashAfter(e, g, xs[|xs| - 1]))
  }

  // ----- the loop itself -----

  /** packet_send_ack and packet_send_nack */
  const ACK_PACKET: seq<byte> := [4, 0, 152, 3]
  const NACK_PACKET: seq<byte> := [5, 0, 30, 0]

  function ReplyBytes(r: Reply): seq<byte> {
    match r
    case Silent => []
    case Ack => ACK_PACKET
    case Nack => NACK_PACKET
  }

  class UpdateMachine {
    var updateStatus: Status
    var updateStatusLast: Status
    var updateSize: nat
    var writtenBytesNo: nat
    var lastWriteSuccess: bool
    const timeout: StimerT
    const io: FlashDriver
    const buffer: array<byte>
    var packetReceived: bool
    /** Everything written to the serial port. */
    var sent: seq<byte>

    ghost predicate Valid() reads this, io, io.flash {
      io.Valid() && buffer.Length >= SPAN && buffer != io.flash.cells
    }

    ghost function State(): Device reads this, io, timeout {
      Device(updateStatus, updateStatusLast, updateSize, writtenBytesNo, lastWriteSuccess, io.State(), timeout.Value())
    }

    ghost function Mailbox(): Option<Packet>
      requires buffer.Length >= SPAN
      reads this, buffer
    {
      if packetReceived then Some(buffer[..]) else None
    }

    /** Reset: every static at its initial value, the timeout started. */
    constructor (driver: FlashDriver, memory: array<byte>, ticks: nat)
      requires driver.Valid() && driver.State() == RESET_UPLOAD
      requires memory.Length >= SPAN && memory != driver.flash.cells
      ensures Valid() && State() == Boot(ticks) && io == driver && buffer == memory
      ensures Mailbox() == None && sent == [] && fresh(timeout)
    {
      var timer := new StimerT(ticks, 5000, false);
      updateStatus, updateStatusLast := WaitForSyncReq, WaitForSyncReq;
      updateSize, writtenBytesNo, lastWriteSuccess := 0, 0, false;
      timeout := timer;
      io := driver;
      buffer := memory;
      packetReceived := false;
      sent := [];
    }

    /** The receive interrupt: the packet is in the buffer, the mailbox flag is up. */
    method Deposit(packet: Packet)
      requires Valid() && |packet| == buffer.Length
      modifies this`packetReceived, buffer
      ensures Valid() && Mailbox() == Some(packet)
    {
      forall i | 0 <= i < buffer.Length {
        buffer[i] := packet[i];
      }
      packetReceived := true;
      assert buffer[..] == packet;
    }

    method SendAck()
      modifies this`sent
      ensures sent == old(sent) + ReplyBytes(Ack)
    {
      sent := sent + ACK_PACKET;
    }

    method SendNack()
      modifies this`sent
      ensures sent == old(sent) + ReplyBytes(Nack)
    {
      sent := sent + NACK_PACKET;
    }

    /** updateStatusLast = updateStatus; updateStatus++ */
    method Advance()
      modifies this`updateStatus, this`updateStatusLast
      ensures updateStatusLast == old(updateStatus) && updateStatus == Next(old(updateStatus))
    {
      updateStatusLast := updateStatus;
      updateStatus := Next(updateStatus);
    }

    /** case US_WAIT_FOR_SYNC_REQ .. US_ERASE_OLD_FW, with a packet */
    method Handshake(actAt: nat)
      requires Valid()
      requires updateStatus in {WaitForSyncReq, WaitForUpdateReq, WaitForDevId, WaitForFwLength, EraseOldFw}
      modifies this, timeout, io.flash, io.flash.cells
      ensures Valid() && packetReceived == old(packetReceived)
      ensures var o := Switch(old(State()), old(io.flash.Contents()), Some(old(buffer[..])), actAt);
              && State() == o.dev
              && sent == old(sent) + ReplyBytes(o.reply)
              && io.flash.log == old(io.flash.log) + Ops(old(State()).upload, o.action)
              && io.flash.Contents() == ApplyAll(old(io.flash.Contents()), Ops(old(State()).upload, o.action))
    {
      hide Extract, PARTITION_ERASE, Ops, ApplyAll, CheckUpdateSize, DeviceId;
      NoOps(State().upload);
      EraseCommands(State().upload);
      ghost var p := buffer[..];
      ghost var f, log, out := io.flash.Contents(), io.flash.log, sent;
      var attr := ExtractPacketAttr(buffer, false);
      assert buffer[2..6] == p[2..6];
      match updateStatus
      case WaitForSyncReq =>
        if attr.tag == TAG_SYNC_REQ {
          SendAck();
          Advance();
          timeout.ReloadAt(actAt);
        } else if attr.tag == TAG_RST {
          SendAck();
        } else {
          SendNack();
        }
      case WaitForUpdateReq =>
        if attr.tag == TAG_UPDATE_REQ {
          SendAck();
          Advance();
          timeout.ReloadAt(actAt);
        }
      case WaitForDevId =>
        var ok := false;
        if attr.tag == TAG_DEV_ID_CHECK {
          ok := io.CheckDevId(buffer[2..6]);
        }
        if ok {
          SendAck();
          Advance();
          timeout.ReloadAt(actAt);
        } else {
          SendNack();
        }
      case WaitForFwLength =>
        if attr.tag == TAG_FW_UPDATE_SIZE {
          updateSize := CheckUpdateSize(buffer[2..6]);
          if updateSize != 0 {
            SendAck();
            Advance();
            timeout.ReloadAt(actAt);
          } else {
            SendNack();
          }
        } else {
          SendNack();
        }
      case EraseOldFw =>
        if attr.tag == TAG_ERASE_REQ {
          // flash_io_erase_fw_partition always reports success
          var erased := io.EraseFwPartition();
          SendAck();
          Advance();
          timeout.StartAt(actAt, 10000, false);
        }
    }

    /** Program a chunk, count it and acknowledge it: flash_io_write_new_firmware returns the length it is
        given, so the comparison with it always succeeds. */
    method StoreChunk(length: nat, actAt: nat)
      requires Valid() && length < 0x100
      modifies this, timeout, io, io.flash, io.flash.cells, buffer
      ensures Valid() && packetReceived == old(packetReceived)
      ensures var o := WriteChunk(old(State()), old(buffer[..]), length, actAt);
              && State() == o.dev
              && sent == old(sent) + ReplyBytes(o.reply)
              && io.flash.log == old(io.flash.log) + Ops(old(State()).upload, o.action)
              && io.flash.Contents() == ApplyAll(old(io.flash.Contents()), Ops(old(State()).upload, o.action))
    {
      hide WriteOps, AfterWrite, ApplyAll;
      assert buffer[2..] == buffer[..][2..];
      var n := io.WriteNewFirmware(buffer, 2, length);
      lastWriteSuccess := n == length;
      writtenBytesNo := writtenBytesNo + length;
      SendAck();
      timeout.ReloadAt(actAt);
    }

    /** case US_RECEIVE_UPDATE */
    method ReceiveUpdateCase(packetAddr: bool, actAt: nat)
      requires Valid() && updateStatus == ReceiveUpdate
      modifies this, timeout, io, io.flash, io.flash.cells, buffer
      ensures Valid() && packetReceived == old(packetReceived)
      ensures var o := Switch(old(State()), old(io.flash.Contents()),
                              if packetAddr then Some(old(buffer[..])) else None, actAt);
              && State() == o.dev
              && sent == old(sent) + ReplyBytes(o.reply)
              && io.flash.log == old(io.flash.log) + Ops(old(State()).upload, o.action)
              && io.flash.Contents() == ApplyAll(old(io.flash.Contents()), Ops(old(State()).upload, o.action))
    {
      hide Extract, WriteChunk, Ops, ApplyAll;
      NoOps(State().upload);
      CommitOps(State().upload);
      if Next(updateStatusLast) == updateStatus {
        updateStatusLast := updateStatus;
        writtenBytesNo := 0;
        lastWriteSuccess := false;
      }
      if packetAddr && writtenBytesNo < updateSize {
        var attr := ExtractPacketAttr(buffer, true);
        if attr.tag == TAG_FW_NEW {
          StoreChunk(attr.length as nat, actAt);
        } else if attr.tag == TAG_FW_REP {
          if lastWriteSuccess {
            SendAck();
            timeout.ReloadAt(actAt);
          } else {
            StoreChunk(attr.length as nat, actAt);
          }
        } else {
          SendNack();
        }
      } else if writtenBytesNo == updateSize {
        io.WriteMainEntry();
        Advance();
      }
    }

    /** The switch, with the mailbox already emptied. */
    method Dispatch(packetAddr: bool, actAt: nat)
      requires Valid()
      modifies this, timeout, io, io.flash, io.flash.cells, buffer
      ensures Valid() && packetReceived == old(packetReceived)
      ensures var o := Switch(old(State()), old(io.flash.Contents()),
                              if packetAddr then Some(old(buffer[..])) else None, actAt);
              && State() == o.dev
              && sent == old(sent) + ReplyBytes(o.reply)
              && io.flash.log == old(io.flash.log) + Ops(old(State()).upload, o.action)
              && io.flash.Contents() == ApplyAll(old(io.flash.Contents()), Ops(old(State()).upload, o.action))
    {
      hide OnSyncReq, OnUpdateReq, OnDevId, OnFwLength, OnEraseReq, Receive, Ops, ApplyAll, Bootable;
      NoOps(State().upload);
      match updateStatus
      case InfiniteLoop =>
        if packetAddr {
          timeout.StartAt(actAt, 5000, false);
          Advance();
        }
      case ReceiveUpdate =>
        ReceiveUpdateCase(packetAddr, actAt);
      case LastCheck =>
        var ok := io.CheckFwIntegrity();
        if !ok {
          updateStatus := InfiniteLoop;
        } else {
          updateStatus := Next(updateStatus);
        }
      case Done =>
      case _ =>
        if packetAddr {
          Handshake(actAt);
        }
    }

    /** One pass of the loop. */
    method Pass(pingAt: nat, actAt: nat)
      requires Valid() && updateStatus != Done
      modifies this, timeout, io, io.flash, io.flash.cells, buffer
      ensures Valid() && !packetReceived
      ensures var x := Input(pingAt, old(Mailbox()), actAt);
              var o := Iterate(old(State()), old(io.flash.Contents()), x);
              && State() == o.dev
              && sent == old(sent) + ReplyBytes(o.reply)
              && io.flash.log == old(io.flash.log) + Ops(old(State()).upload, o.action)
              && io.flash.Contents() == FlashAfter(old(State()), old(io.flash.Contents()), x)
    {
      hide Switch, Ops, ApplyAll;
      ghost var d := State();
      var elapsed := timeout.PingAt(pingAt);
      if elapsed {
        updateStatus := LastCheck;
      }
      assert State() == Polled(d, pingAt);
      var packetAddr := packetReceived;
      packetReceived := false;
      Dispatch(packetAddr, actAt);
    }

    /** update_state_machine, on at most the given observations: it makes a pass for each of them until the state
        is US_DONE, and leaves early for no other reason. */
    method UpdateStateMachine(inputs: seq<Input>) returns (used: nat)
      requires Valid() && !packetReceived
      requires forall i :: 0 <= i < |inputs| && inputs[i].packet.Some? ==> |inputs[i].packet.value| == buffer.Length
      modifies this, timeout, io, io.flash, io.flash.cells, buffer
      ensures Valid() && used <= |inputs|
      ensures updateStatus == Done || used == |inputs|
      ensures forall j :: 0 <= j < used ==>
        Iterated(old(State()), old(io.flash.Contents()), inputs[..j]).0.status != Done
      ensures (State(), io.flash.Contents()) == Iterated(old(State()), old(io.flash.Contents()), inputs[..used])
    {
      hide Iterate, FlashAfter;
      ghost var d0, f0 := State(), io.flash.Contents();
      used := 0;
      while updateStatus != Done && used < |inputs|
        invariant Valid() && !packetReceived && 0 <= used <= |inputs|
        invariant forall j :: 0 <= j < used ==> Iterated(d0, f0, inputs[..j]).0.status != Done
        invariant (State(), io.flash.Contents()) == Iterated(d0, f0, inputs[..used])
        decreases |inputs| - used
      {
        if inputs[used].packet.Some? {
          Deposit(inputs[used].packet.value);
        }
        assert Input(inputs[used].pingAt, Mailbox(), inputs[used].actAt) == inputs[used];
        assert inputs[..used + 1][..used] == inputs[..used];
        Pass(inputs[used].pingAt, inputs[used].actAt);
        used := used + 1;
      }
    }
  }
}
