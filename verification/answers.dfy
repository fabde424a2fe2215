/**
 What the bootloader answers, state by state and for every packet: which packets it accepts, which it refuses with
 NACK, which it ignores, and that a packet it does not accept leaves it where it was.
 */
module Answers {
  import opened Bytes
  import opened Memory
  import opened FlashIo
  import opened Protocol
  import opened Stimer
  import opened Update
  import opened CrashSafety
  import opened Delivery

  /** A pass that finds a packet in time. */
  predicate Finds(d: Device, x: Input) {
    !Fires(d.timeout, x.pingAt) && x.packet.Some?
  }

  /** Any packet at all, damaged or not, wakes the idle loop; it is not looked at. */
  lemma WokenIff(d: Device, f: Image, x: Input)
    requires d.status == InfiniteLoop && !Fires(d.timeout, x.pingAt)
    ensures var o := Iterate(d, f, x);
      && o.reply == Silent && o.action == Nothing
      && (x.packet.Some? ==>
            o.dev == d.(last := InfiniteLoop, status := WaitForSyncReq,
                        timeout := Timer(false, false, 5000, x.actAt + 5000)))
      && (x.packet.None? ==> o.dev == d)
  {
  }

  lemma SyncAnswered(d: Device, f: Image, x: Input)
    requires d.status == WaitForSyncReq && Finds(d, x)
    ensures var o, tag := Iterate(d, f, x), Extract(x.packet.value, false).tag;
      && o.action == Nothing && o.reply != Silent
      && (o.reply == Ack <==> tag == TAG_SYNC_REQ || tag == TAG_RST)
      && (tag == TAG_SYNC_REQ ==> o.dev.status == WaitForUpdateReq)
      && (tag != TAG_SYNC_REQ ==> o.dev == d)
  {
    hide Extract, Reload;
  }

  lemma UpdateAnswered(d: Device, f: Image, x: Input)
    requires d.status == WaitForUpdateReq && Finds(d, x)
    ensures var o, tag := Iterate(d, f, x), Extract(x.packet.value, false).tag;
      && o.action == Nothing && o.reply != Nack
      && (o.reply == Ack <==> tag == TAG_UPDATE_REQ)
      && (o.reply == Ack ==> o.dev.status == WaitForDevId)
      && (o.reply != Ack ==> o.dev == d)
  {
    hide Extract, Reload;
  }

  lemma IdAnswered(d: Device, f: Image, x: Input)
    requires d.status == WaitForDevId && Finds(d, x)
    ensures var o, p := Iterate(d, f, x), x.packet.value;
      && o.action == Nothing && o.reply != Silent
      && (o.reply == Ack <==> Extract(p, false).tag == TAG_DEV_ID_CHECK && p[2..6] == DeviceId(f))
      && (o.reply == Ack ==> o.dev.status == WaitForFwLength)
      && (o.reply != Ack ==> o.dev == d)
  {
    hide Extract, Reload, DeviceId;
  }

  /** The number in the first four data bytes, least significant byte first. */
  function Announced(p: Packet): nat {
    (p[2] as nat) + 0x100 * (p[3] as nat) + 0x1_0000 * (p[4] as nat) + 0x100_0000 * (p[5] as nat)
  }

  /** An announced size is accepted if and only if it is not zero and fits the partition, and then it is the
      size the upload is measured by. */
  lemma SizeAnswered(d: Device, f: Image, x: Input)
    requires d.status == WaitForFwLength && Finds(d, x)
    ensures var o, p := Iterate(d, f, x), x.packet.value;
      && o.action == Nothing && o.reply != Silent
      && (o.reply == Ack <==> Extract(p, false).tag == TAG_FW_UPDATE_SIZE && 0 < Announced(p) <= 0x7_8000)
      && (o.reply == Ack ==> o.dev.status == EraseOldFw && o.dev.updateSize == Announced(p))
      && (o.reply != Ack ==> o.dev == d.(updateSize := o.dev.updateSize))
  {
    hide Extract, Reload;
    AnnouncedValue(x.packet.value);
  }

  lemma AnnouncedValue(p: Packet)
    ensures LittleEndian(p[2..6]) == Announced(p)
  {
    var b := p[2..6];
    assert b[0] == p[2] && b[1] == p[3] && b[2] == p[4] && b[3] == p[5];
  }

  lemma EraseAnswered(d: Device, f: Image, x: Input)
    requires d.status == EraseOldFw && Finds(d, x)
    ensures var o, tag := Iterate(d, f, x), Extract(x.packet.value, false).tag;
      && o.reply != Nack && (o.reply == Ack <==> tag == TAG_ERASE_REQ)
      && (o.reply == Ack ==>
            && o.action == ErasePartition && o.dev.status == ReceiveUpdate
            && o.dev.timeout == Timer(false, false, 10000, x.actAt + 10000))
      && (o.reply != Ack ==> o.action == Nothing && o.dev == d)
  {
    hide Extract;
  }

  /** While bytes are missing, a new chunk is stored, a repeated one only if nothing was stored since the erase,
      and anything else refused. */
  lemma ChunkAnswered(d: Device, f: Image, x: Input)
    requires d.status == ReceiveUpdate && Finds(d, x) && Counter(d) < d.updateSize
    ensures var o, p := Iterate(d, f, x), x.packet.value;
      var attr := Extract(p, true);
      && o.reply != Silent && o.dev.status == ReceiveUpdate
      && (o.reply == Ack <==> attr.tag == TAG_FW_NEW || attr.tag == TAG_FW_REP)
      && (o.action.Write? <==> attr.tag == TAG_FW_NEW || (attr.tag == TAG_FW_REP && !LastOk(d)))
      && (o.action.Write? ==> o.action == Write(p[2..], attr.length as nat) && LastOk(o.dev))
      && (!o.action.Write? ==> o.action == Nothing && (LastOk(o.dev) <==> LastOk(d)))
  {
    hide Extract, Reload, AfterWrite, Fires, Ping;
  }

  /** The pass that finds the timeout run out answers nothing, whatever packet it takes from the mailbox. */
  lemma LatePass(d: Device, f: Image, x: Input)
    requires Fires(d.timeout, x.pingAt)
    ensures var o := Iterate(d, f, x);
      && o.reply == Silent && o.action == Nothing
      && o.dev.status == if Entry(f) != [0xFF, 0xFF, 0xFF, 0xFF] && Entry(f) != [0, 0, 0, 0] then Done else InfiniteLoop
  {
    hide Entry;
  }

  /** Without a packet, and with more bytes than announced, the device is silent. */
  lemma QuietPass(d: Device, f: Image, x: Input)
    requires Waiting(d.status) && !Fires(d.timeout, x.pingAt)
    requires x.packet.None? || (d.status == ReceiveUpdate && Counter(d) >= d.updateSize)
    ensures var o := Iterate(d, f, x);
      && o.reply == Silent
      && (o.action == Commit <==> d.status == ReceiveUpdate && Counter(d) == d.updateSize)
      && (o.action != Commit ==> o.action == Nothing && o.dev.status == d.status)
  {
    hide Extract;
  }
}
