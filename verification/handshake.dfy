/**
 The whole conversation on the lossy line, from reset on: whatever is lost or damaged during the handshake, the
 sender enters the upload only when the device has just erased its partition for this very file, so that the
 results of Delivery hold for runs from reset.
 */
module Handshake {
  import opened Bytes
  import opened Memory
  import opened FlashIo
  import opened Protocol
  import opened Stimer
  import opened Update
  import opened CrashSafety
  import opened Host
  import opened Delivery

  /** The device's state while the sender is in its k-th handshake state. */
  function Awaiting(k: nat): Status
    requires k < UPLOAD
  {
    if k == 0 then WaitForSyncReq else if k == 1 then WaitForUpdateReq else if k == 2 then WaitForDevId
    else if k == 3 then WaitForFwLength else EraseOldFw
  }

  function RequestTag(k: nat): byte
    requires k < UPLOAD
  {
    if k == 0 then TAG_SYNC_REQ else if k == 1 then TAG_UPDATE_REQ else if k == 2 then TAG_DEV_ID_CHECK
    else if k == 3 then TAG_FW_UPDATE_SIZE else TAG_ERASE_REQ
  }

  function RequestData(k: nat, file: seq<byte>, id: seq<byte>): seq<byte>
    requires k < UPLOAD && |file| < 0x1_0000_0000
  {
    if k == 2 then id else if k == 3 then ToLittleEndian(|file|) else []
  }

  /** Where the device goes when it acknowledges the k-th request. */
  function Acknowledged(k: nat): Status
    requires k < UPLOAD
  {
    if k == 4 then ReceiveUpdate else Awaiting(k + 1)
  }

  // ----- requests arriving -----

  /** A handshake frame in front of whatever the buffer holds. */
  lemma RequestArrives(tag: byte, data: seq<byte>, p: Packet)
    requires |data| <= 4 && Frame(tag, data, false) <= p && tag != TAG_PW
    ensures Extract(p, false).tag == tag && p[2..2 + |data|] == data && p[0] == tag
  {
    hide Frame, Extract;
    FrameRoundTrip(tag, data, false, p);
    ExtractedTag(p, false);
    RequestHead(tag, data, p);
  }

  lemma RequestHead(tag: byte, data: seq<byte>, p: Packet)
    requires |data| <= 4 && Frame(tag, data, false) <= p
    ensures p[0] == tag
  {
    hide Check;
    assert p[0] == Frame(tag, data, false)[0];
  }

  /** The device accepts each request it is waiting for. */
  lemma RequestAccepted(d: Device, f: Image, x: Input, k: nat, p: Packet, size: nat)
    requires k < UPLOAD && d.status == Awaiting(k) && !Fires(d.timeout, x.pingAt) && x.packet == Some(p)
    requires Extract(p, false).tag == RequestTag(k)
    requires k == 2 ==> p[2..6] == DeviceId(f)
    requires 0 < size <= FW_CAPACITY
    requires (k == 3 ==> p[2..6] == ToLittleEndian(size)) && (k == 4 ==> d.updateSize == size)
    ensures var o := Iterate(d, f, x);
      && o.reply == Ack && o.dev.upload == d.upload
      && o.dev.status == (if k == 4 then ReceiveUpdate else Awaiting(k + 1)) && o.dev.last == d.status
      && o.action == (if k == 4 then ErasePartition else Nothing)
      && (k >= 3 ==> o.dev.updateSize == size)
  {
    hide Extract, DeviceId, Start, Reload, Ping, LittleEndian, ToLittleEndian;
    if k == 3 {
      SizeSurvives(size);
    }
  }

  lemma SizeSurvives(size: nat)
    requires size <= FW_CAPACITY
    ensures CheckUpdateSize(ToLittleEndian(size)) == size
  {
    hide LittleEndian;
    assert LittleEndian(ToLittleEndian(size)) == size;
  }

  // ----- what every step of the handshake keeps -----

  /** The device waits for the request, or has acknowledged it without the sender hearing so, or has given up. */
  predicate Near(k: nat, s: Status)
    requires k < UPLOAD
  {
    s == Awaiting(k) || s == Acknowledged(k) || Over(s)
  }

  predicate SizeKnown(d: Device, size: nat) {
    d.status == EraseOldFw || d.status == ReceiveUpdate ==> d.updateSize == size
  }

  ghost predicate ShakeInv(l: Link, rom: seq<byte>, base: seq<byte>) {
    var d := l.sys.dev;
    && Sane(l) && PARAMS_SIZE + 4 <= |l.file| <= FW_CAPACITY
    && l.sender.phase < UPLOAD && l.sender.read == 0 && l.mask == []
    && Inv(l.sys, rom) && l.sys.base == base
    && Near(l.sender.phase, d.status) && SizeKnown(d, |l.file|)
    && d.upload.written == 0 && (d.status == ReceiveUpdate ==> l.sys.payload == [])
  }

  /** A packet that is the k-th request, or damaged. */
  predicate IsRequest(p: Packet, k: nat, size: nat)
    requires k < UPLOAD && size < 0x1_0000_0000
  {
    && Extract(p, false).tag in {RequestTag(k), TAG_INVALID}
    && Extract(p, true).tag in {RequestTag(k), TAG_INVALID}
    && (k == 3 && Extract(p, false).tag == RequestTag(k) ==> p[2..6] == ToLittleEndian(size))
  }

  /** A pass of the device during the handshake acknowledges the request it waits for, or nothing. */
  lemma ShakePass(d: Device, f: Image, x: Input, k: nat, size: nat)
    requires k < UPLOAD && 0 < size <= FW_CAPACITY && Near(k, d.status) && SizeKnown(d, size) && d.status != Done
    requires x.packet.Some? ==> IsRequest(x.packet.value, k, size)
    requires d.status == ReceiveUpdate ==> Counter(d) < d.updateSize
    ensures var o := Iterate(d, f, x);
      && Near(k, o.dev.status) && SizeKnown(o.dev, size) && o.dev.upload == d.upload
      && (o.action == Nothing || (o.action == ErasePartition && k == 4 && o.reply == Ack))
      && (o.reply == Ack ==> d.status == Awaiting(k) && o.dev.status == Acknowledged(k) && o.dev.last == d.status)
      && (o.dev.status == ReceiveUpdate && d.status != ReceiveUpdate ==> o.action == ErasePartition)
  {
    hide Extract, DeviceId, Start, Reload, Ping, LittleEndian, ToLittleEndian, Bootable, Fires, CheckUpdateSize;
    SizeSurvives(size);
  }

  /** What a step of the handshake can put into the mailbox. */
  lemma ObservedRequest(l: Link, e: Step)
    requires Sane(l) && l.sender.phase < UPLOAD && Possible(l, e)
    ensures var x := Observed(l, e);
      x.packet.Some? ==>
        && e.Exchange? && Message(l.sender, l.file, l.id).Some?
        && IsRequest(x.packet.value, l.sender.phase, |l.file|)
  {
    hide Frame, Extract, ToLittleEndian;
    var x, k := Observed(l, e), l.sender.phase;
    if x.packet.Some? && e.arrival.Intact? {
      RequestArrives(RequestTag(k), RequestData(k, l.file, l.id), x.packet.value);
      ExtractedTag(x.packet.value, true);
    }
  }

  lemma CountedPayload(l: Link, rom: seq<byte>, base: seq<byte>)
    requires ShakeInv(l, rom, base) && l.sys.dev.status == ReceiveUpdate
    ensures Counter(l.sys.dev) < l.sys.dev.updateSize
  {
    hide Streaming, HandshakeInv, TimerInv, BaseInv, Sane;
  }

  /** The outcome of the device's pass in a step of the handshake. */
  lemma ShakeOutcome(l: Link, rom: seq<byte>, base: seq<byte>, e: Step)
    requires ShakeInv(l, rom, base) && Possible(l, e) && l.sys.dev.status != Done
    ensures var x := Observed(l, e);
      var o, d, k := OutcomeOf(l.sys, x), l.sys.dev, l.sender.phase;
      && Near(k, o.dev.status) && SizeKnown(o.dev, |l.file|) && o.dev.upload == d.upload
      && (o.action == Nothing || (o.action == ErasePartition && k == 4 && o.reply == Ack))
      && (o.reply == Ack ==> d.status == Awaiting(k) && o.dev.status == Acknowledged(k) && o.dev.last == d.status)
      && (o.dev.status == ReceiveUpdate && d.status != ReceiveUpdate ==> o.action == ErasePartition)
      && Allowed(l.sys, Event.Pass(x))
  {
    hide Iterate, Extract, Inv, Observed, Message, Near, SizeKnown;
    ObservedRequest(l, e);
    ObservedTimes(l, e);
    if l.sys.dev.status == ReceiveUpdate {
      CountedPayload(l, rom, base);
    }
    ShakePass(l.sys.dev, l.sys.flash, Observed(l, e), l.sender.phase, |l.file|);
  }

  /** The device's side of a step of the handshake. */
  lemma DeviceShakes(l: Link, rom: seq<byte>, base: seq<byte>, e: Step)
    requires ShakeInv(l, rom, base) && Possible(l, e)
    ensures var s := DevicePass(l.sys, Observed(l, e));
      var d, k := s.dev, l.sender.phase;
      && Inv(s, rom) && s.base == base && Near(k, d.status) && SizeKnown(d, |l.file|)
      && d.upload.written == 0 && (d.status == ReceiveUpdate ==> s.payload == [])
      && (ReplyOf(l.sys, Observed(l, e)) == Ack ==> d.status == Acknowledged(k) && d.last == Awaiting(k))
  {
    hide Iterate, Inv, Observed, Near, SizeKnown, FlashAfter, ArmedAfter, AckedAfter, Disciplined, Intended;
    if l.sys.dev.status != Done {
      ShakeOutcome(l, rom, base, e);
      EventKeeps(l.sys, rom, Event.Pass(Observed(l, e)));
    }
  }

  /** The sender's side. */
  lemma SenderShakes(l: Link, e: Step)
    requires Sane(l) && Possible(l, e) && l.sender.phase < UPLOAD && l.sender.read == 0 && l.mask == []
    ensures var l' := Advance(l, e);
      && l'.sys == DevicePass(l.sys, Observed(l, e)) && l'.file == l.file && l'.mask == [] && l'.sender.read == 0
      && (l'.sender.phase == l.sender.phase
          || (l'.sender == Sender(l.sender.phase + 1, 0, 0) && ReplyOf(l.sys, Observed(l, e)) == Ack))
  {
    hide Message, IsAck, DevicePass, Observed, ReplyBytes, Reaches, ReplyOf;
    if e.Exchange? && Message(l.sender, l.file, l.id).Some? {
      HeardAck(ReplyOf(l.sys, Observed(l, e)), e.response);
    }
  }

  ghost predicate WholeInv(l: Link, rom: seq<byte>, base: seq<byte>) {
    ShakeInv(l, rom, base) || LinkInv(l, rom, base)
  }

  lemma ShakeStep(l: Link, rom: seq<byte>, base: seq<byte>, e: Step)
    requires ShakeInv(l, rom, base) && Possible(l, e)
    ensures var l' := Advance(l, e);
      if l'.sender.phase < UPLOAD then ShakeInv(l', rom, base) else UploadStart(l', rom) && l'.sys.base == base
  {
    hide Inv, Observed, DevicePass, ReplyOf, Advance, Over;
    DeviceShakes(l, rom, base, e);
    SenderShakes(l, e);
  }

  lemma WholeStep(l: Link, rom: seq<byte>, base: seq<byte>, e: Step)
    requires WholeInv(l, rom, base) && Sane(l) && Possible(l, e)
    ensures WholeInv(Advance(l, e), rom, base)
  {
    hide ShakeInv, LinkInv, Advance, Possible, UploadStart;
    if ShakeInv(l, rom, base) {
      ShakeStep(l, rom, base, e);
      if UploadStart(Advance(l, e), rom) {
        StartInv(Advance(l, e), rom);
      }
    } else {
      StepKeeps(l, rom, base, e);
    }
  }

  lemma {:induction false} WholeRun(l: Link, rom: seq<byte>, base: seq<byte>, es: seq<Step>)
    requires WholeInv(l, rom, base) && Sane(l) && PossibleRun(l, es)
    ensures WholeInv(RunLink(l, es), rom, base)
    decreases |es|
  {
    hide WholeInv, Advance, Possible;
    if es != [] {
      WholeStep(l, rom, base, es[0]);
      WholeRun(Advance(l, es[0]), rom, base, es[1..]);
    }
  }

  // ----- the results, from reset on -----

  /** Reset on one end, the start of the script on the other; any flash contents, any device id. */
  predicate PowerOn(l: Link) {
    && Sane(l) && PARAMS_SIZE + 4 <= |l.file| <= FW_CAPACITY
    && Initial(l.sys) && l.sender == START && l.mask == []
  }

  lemma PowerOnInv(l: Link)
    requires PowerOn(l)
    ensures WholeInv(l, l.sys.flash[..BL_SIZE], l.sys.base) && ShakeInv(l, l.sys.flash[..BL_SIZE], l.sys.base)
  {
    hide Inv;
    InitialInv(l.sys);
  }

  lemma FromPowerOn(l0: Link, es: seq<Step>)
    requires PowerOn(l0) && PossibleRun(l0, es)
    ensures WholeInv(RunLink(l0, es), l0.sys.flash[..BL_SIZE], l0.sys.base)
    ensures RunLink(l0, es).file == l0.file && Sane(RunLink(l0, es))
  {
    hide WholeInv, Inv;
    PowerOnInv(l0);
    WholeRun(l0, l0.sys.flash[..BL_SIZE], l0.sys.base, es);
    RunLinkFile(l0, es);
  }

  /** However the handshake went, the exchange that takes the sender into the upload leaves the device with a
      partition just erased and the size of this file announced. */
  lemma UploadStarts(l0: Link, es: seq<Step>, e: Step)
    requires PowerOn(l0) && PossibleRun(l0, es) && Sane(RunLink(l0, es)) && Possible(RunLink(l0, es), e)
    requires RunLink(l0, es).sender.phase < UPLOAD <= Advance(RunLink(l0, es), e).sender.phase
    ensures UploadStart(Advance(RunLink(l0, es), e), l0.sys.flash[..BL_SIZE])
  {
    hide ShakeInv, LinkInv, Possible, Advance, UploadStart;
    FromPowerOn(l0, es);
    LinkPhase(RunLink(l0, es), l0.sys.flash[..BL_SIZE], l0.sys.base);
    ShakeStep(RunLink(l0, es), l0.sys.flash[..BL_SIZE], l0.sys.base, e);
  }

  lemma LinkPhase(l: Link, rom: seq<byte>, base: seq<byte>)
    ensures LinkInv(l, rom, base) ==> l.sender.phase == UPLOAD && SenderMask(l)
    ensures ShakeInv(l, rom, base) ==> l.sender.phase < UPLOAD && l.mask == []
  {
    hide Inv, DeviceInv;
  }

  /** LossyDelivery, from reset: at any time what an upload has written are the chunks marked as heard, and the
      application region is replaced by the whole file or not at all. */
  lemma LossyUpdate(l0: Link, es: seq<Step>)
    requires PowerOn(l0) && PossibleRun(l0, es)
    ensures var l := RunLink(l0, es);
      && (l.sys.dev.status == ReceiveUpdate ==> l.sys.payload == Select(l0.file, l.mask))
      && (l.sys.base != l0.sys.base ==> l.sys.base == Intended(l0.file) && Complete(l))
      && (Bootable(l.sys.flash) ==> App(l.sys.flash) == l.sys.base)
  {
    hide Select, Complete, Intended, RunLink, PossibleRun, RunInv;
    FromPowerOn(l0, es);
    SelectNothing(l0.file);
  }

  /** CommitIff, from reset: in a pass that does not time out the entry word is programmed if and only if every
      chunk is marked as heard. */
  lemma CommitFromReset(l0: Link, es: seq<Step>, e: Step)
    requires PowerOn(l0) && PossibleRun(l0, es) && Sane(RunLink(l0, es)) && Possible(RunLink(l0, es), e)
    requires var l := RunLink(l0, es);
      l.sys.dev.status == ReceiveUpdate && !Fires(l.sys.dev.timeout, e.pingAt)
    ensures var l := RunLink(l0, es);
      && (OutcomeOf(l.sys, Observed(l, e)).action == Commit <==> Complete(l))
      && (Complete(l) ==> After(l.sys, Event.Pass(Observed(l, e))).flash[PARAMS_OFFSET..]
                          == l0.file + Blanks(FLASH_SIZE - PARAMS_OFFSET - |l0.file|))
  {
    hide ShakeInv, LinkInv, Complete, Observed, RunLink, PossibleRun, Iterate;
    FromPowerOn(l0, es);
    var l, rom := RunLink(l0, es), l0.sys.flash[..BL_SIZE];
    if LinkInv(l, rom, l0.sys.base) {
      CommitNow(l, rom, l0.sys.base, e);
    } else {
      ShakenIsIncomplete(l, rom, l0.sys.base);
      ShakeOutcome(l, rom, l0.sys.base, e);
    }
  }

  lemma ShakenIsIncomplete(l: Link, rom: seq<byte>, base: seq<byte>)
    requires ShakeInv(l, rom, base)
    ensures !Complete(l)
  {
    hide Inv;
  }

  /** LostChunkIsFinal, from reset. */
  lemma LostChunkDecides(l0: Link, es: seq<Step>, rest: seq<Step>, i: nat)
    requires PowerOn(l0) && PossibleRun(l0, es) && Sane(RunLink(l0, es)) && PossibleRun(RunLink(l0, es), rest)
    requires var l := RunLink(l0, es);
      l.sys.base == l0.sys.base && 0 < i < |l.mask| && !l.mask[i]
    ensures RunLink(RunLink(l0, es), rest).sys.base == l0.sys.base
  {
    hide ShakeInv, LinkInv, Complete, RunLink, PossibleRun;
    FromPowerOn(l0, es);
    var l, rom := RunLink(l0, es), l0.sys.flash[..BL_SIZE];
    LinkPhase(l, rom, l0.sys.base);
    RunLinkKeeps(l, rom, l0.sys.base, rest);
    MarksStay(l, rest, i);
    CompleteMeans(RunLink(l, rest));
    BaseOf(RunLink(l, rest), rom, l0.sys.base);
  }
}
