/**
 The sender and the device on a lossy line. A round carries one frame and at most one reply; either may be
 lost; a frame may be damaged in a way the check bytes reveal, a reply by a burst of up to 16 bits or in an odd
 number of bits. Between rounds the device makes any number of idle passes.

 The mask says, chunk by chunk, what the line did: true if the chunk's first transmission reached a
 listening device (for the very first chunk, if any transmission did).
 */
module Delivery {
  import opened Bytes
  import opened Memory
  import opened FlashIo
  import opened Protocol
  import opened Stimer
  import opened Update
  import opened CrashSafety
  import opened Host

  /** What becomes of a frame: delivered in front of what was left in the buffer, lost, or damaged. */
  datatype Arrival =
    | Intact(rest: seq<byte>)
    | Missing
    | Garbled(p: Packet)

  datatype Link = Link(file: seq<byte>, id: seq<byte>, sys: System, sender: Sender, mask: seq<bool>)

  datatype Step =
    /** One frame of the sender, and what it reads in response. */
    | Exchange(arrival: Arrival, response: seq<byte>, pingAt: nat, actAt: nat)
    /** A pass of the device with an empty mailbox. */
    | Idle(pingAt: nat, actAt: nat)

  function Delivered(frame: seq<byte>, a: Arrival): Option<Packet> {
    match a
    case Intact(rest) => if |frame + rest| >= SPAN then Some(frame + rest) else None
    case Missing => None
    case Garbled(p) => Some(p)
  }

  predicate Detectable(a: Arrival, frame: seq<byte>) {
    match a
    case Intact(rest) => |frame + rest| >= SPAN
    case Missing => true
    case Garbled(p) => Extract(p, true).tag == TAG_INVALID && Extract(p, false).tag == TAG_INVALID
  }

  function DevicePass(s: System, x: Input): System {
    if s.dev.status == Done then s else After(s, Event.Pass(x))
  }

  function ReplyOf(s: System, x: Input): Reply {
    if s.dev.status == Done then Silent else OutcomeOf(s, x).reply
  }

  predicate Listening(s: System, pingAt: nat) {
    s.dev.status == ReceiveUpdate && !Fires(s.dev.timeout, pingAt) && Counter(s.dev) < s.dev.updateSize
  }

  function Mark(mask: seq<bool>, sender: Sender, heard: bool): seq<bool> {
    if sender.retry == 0 then mask + [heard]
    else if |mask| == 1 then [mask[0] || heard]
    else mask
  }

  predicate Sane(l: Link) {
    |l.file| < 0x1_0000_0000 && |l.id| == 4
  }

  function Observed(l: Link, e: Step): Input
    requires Sane(l)
  {
    match e
    case Idle(pingAt, actAt) => Input(pingAt, None, actAt)
    case Exchange(a, _, pingAt, actAt) =>
      match Message(l.sender, l.file, l.id)
      case None => Input(pingAt, None, actAt)
      case Some(frame) => Input(pingAt, Delivered(frame, a), actAt)
  }

  function Advance(l: Link, e: Step): (l': Link)
    requires Sane(l)
    ensures Sane(l') && l'.file == l.file
  {
    var x := Observed(l, e);
    var sys := DevicePass(l.sys, x);
    if e.Idle? || Message(l.sender, l.file, l.id) == None then l.(sys := sys)
    else
      var heard := e.arrival.Intact? && Listening(l.sys, e.pingAt);
      l.(sys := sys,
         sender := Hear(l.sender, IsAck(e.response)),
         mask := if l.sender.phase == UPLOAD then Mark(l.mask, l.sender, heard) else l.mask)
  }

  predicate Possible(l: Link, e: Step)
    requires Sane(l)
  {
    && l.sys.now <= e.pingAt <= e.actAt
    && (e.Exchange? && Message(l.sender, l.file, l.id).Some? ==>
          && Detectable(e.arrival, Message(l.sender, l.file, l.id).value)
          && Reaches(ReplyBytes(ReplyOf(l.sys, Observed(l, e))), e.response))
  }

  function RunLink(l: Link, es: seq<Step>): Link
    requires Sane(l)
    decreases |es|
  {
    if es == [] then l else RunLink(Advance(l, es[0]), es[1..])
  }

  predicate PossibleRun(l: Link, es: seq<Step>)
    requires Sane(l)
    decreases |es|
  {
    es == [] || (Possible(l, es[0]) && PossibleRun(Advance(l, es[0]), es[1..]))
  }

  // ----- sub-sequences of the file's chunks -----

  predicate All(mask: seq<bool>) {
    forall i :: 0 <= i < |mask| ==> mask[i]
  }

  /** The chunks the mask picks, in the order of the file. */
  function Select(file: seq<byte>, mask: seq<bool>): seq<byte> {
    if mask == [] then []
    else Select(file, mask[..|mask| - 1]) + if mask[|mask| - 1] then Chunk(file, |mask| - 1) else []
  }

  /** How much of the file its first n chunks hold. */
  function Upto(file: seq<byte>, n: nat): (k: nat)
    ensures k <= |file|
  {
    if CHUNK * n <= |file| then CHUNK * n else |file|
  }

  lemma UptoStep(file: seq<byte>, n: nat)
    ensures |Chunk(file, n)| == Upto(file, n + 1) - Upto(file, n)
    ensures file[..Upto(file, n)] + Chunk(file, n) == file[..Upto(file, n + 1)]
  {
  }

  lemma {:induction false} SelectEverything(file: seq<byte>, mask: seq<bool>)
    requires All(mask)
    ensures Select(file, mask) == file[..Upto(file, |mask|)]
  {
    if mask != [] {
      var n := |mask| - 1;
      SelectEverything(file, mask[..n]);
      UptoStep(file, n);
      assert mask[n];
    }
  }

  lemma {:induction false} SelectBound(file: seq<byte>, mask: seq<bool>)
    ensures |Select(file, mask)| <= Upto(file, |mask|)
    ensures |mask| <= Chunks(file) && |Select(file, mask)| == Upto(file, |mask|) ==> All(mask)
  {
    hide Chunk, Upto;
    if mask != [] {
      var n := |mask| - 1;
      SelectBound(file, mask[..n]);
      UptoStep(file, n);
      if n < Chunks(file) {
        ChunkNonEmpty(file, n);
      }
    }
  }

  lemma ChunkNonEmpty(file: seq<byte>, n: nat)
    ensures n < Chunks(file) <==> Chunk(file, n) != []
  {
  }

  lemma {:induction false} SelectWhole(file: seq<byte>, mask: seq<bool>)
    requires CHUNK * |mask| <= |file|
    ensures |Select(file, mask)| % CHUNK == 0
  {
    if mask != [] {
      SelectWhole(file, mask[..|mask| - 1]);
    }
  }

  /** The selected chunks add up to the file only if all of them were selected. */
  lemma SelectAll(file: seq<byte>, mask: seq<bool>)
    requires |mask| <= Chunks(file)
    ensures |Select(file, mask)| == |file| <==> |mask| == Chunks(file) && All(mask)
    ensures |Select(file, mask)| == |file| ==> Select(file, mask) == file
  {
    hide Select, All;
    SelectBound(file, mask);
    if All(mask) {
      SelectEverything(file, mask);
    }
    assert file[..|file|] == file;
  }

  // ----- what every step keeps -----

  predicate Complete(l: Link) {
    |l.mask| == Chunks(l.file) && All(l.mask)
  }

  /** lastWriteSuccess as the next pass sees it. */
  predicate LastOk(d: Device) {
    d.last != EraseOldFw && d.lastWriteSuccess
  }

  predicate Over(s: Status) {
    s in {LastCheck, Done, InfiniteLoop, WaitForSyncReq}
  }

  predicate SenderInv(l: Link) {
    var h := l.sender;
    && h.phase == UPLOAD && |l.mask| == h.read <= Chunks(l.file)
    && (h.retry > 0 ==> h.read > 0)
    && (h.retry == 0 && h.read > 0 ==> l.mask[0])
    && (h.read >= 2 ==> l.mask[0])
  }

  ghost predicate DeviceInv(l: Link, base: seq<byte>) {
    var s := l.sys;
    && (s.dev.status == ReceiveUpdate ==>
          && s.dev.updateSize == |l.file| && s.base == base
          && s.payload == Select(l.file, l.mask)
          && (LastOk(s.dev) <==> l.mask != [] && l.mask[0]))
    && (s.dev.status != ReceiveUpdate ==>
          && Over(s.dev.status)
          && (s.base == base || (s.base == Intended(l.file) && Complete(l))))
  }

  ghost predicate LinkInv(l: Link, rom: seq<byte>, base: seq<byte>) {
    && Sane(l) && PARAMS_SIZE + 4 <= |l.file| <= FW_CAPACITY
    && Inv(l.sys, rom) && SenderInv(l) && DeviceInv(l, base)
  }

  /** A pass of the upload that does not take a frame. */
  lemma UploadPauses(d: Device, f: Image, x: Input)
    requires d.status == ReceiveUpdate
    ensures var o := Iterate(d, f, x);
      && (Fires(d.timeout, x.pingAt) ==> o.action == Nothing && Over(o.dev.status) && o.reply == Silent)
      && (!Fires(d.timeout, x.pingAt) && Counter(d) == d.updateSize ==>
            o.action == Commit && o.dev.status == LastCheck && o.reply == Silent)
      && (!Fires(d.timeout, x.pingAt)
          && (Counter(d) > d.updateSize || (Counter(d) < d.updateSize && x.packet == None)) ==>
            o.action == Nothing && o.dev.status == ReceiveUpdate && o.reply == Silent && (LastOk(o.dev) <==> LastOk(d)))
  {
    hide Bootable, Start, Reload, Ping, OnChunk, Fires;
  }

  /** A pass of the upload that takes a frame. */
  lemma UploadTakes(d: Device, f: Image, x: Input, p: Packet)
    requires d.status == ReceiveUpdate && !Fires(d.timeout, x.pingAt)
    requires Counter(d) < d.updateSize && x.packet == Some(p)
    ensures var o := Iterate(d, f, x);
      var attr := Extract(p, true);
      && (attr.tag == TAG_INVALID ==>
            o.action == Nothing && o.dev.status == ReceiveUpdate && o.reply == Nack && (LastOk(o.dev) <==> LastOk(d)))
      && (attr.tag == TAG_FW_REP && LastOk(d) ==>
            o.action == Nothing && o.dev.status == ReceiveUpdate && o.reply == Ack && LastOk(o.dev))
      && (attr.tag == TAG_FW_NEW || (attr.tag == TAG_FW_REP && !LastOk(d)) ==>
            && o.action == Write(p[2..], attr.length as nat)
            && o.dev.status == ReceiveUpdate && o.reply == Ack && LastOk(o.dev))
  {
    hide Extract, Bootable, Start, Reload, Ping, AfterWrite, Fires;
  }

  /** What a pass does in each of the situations an upload can be in. */
  lemma UploadPass(d: Device, f: Image, x: Input)
    requires d.status == ReceiveUpdate
    ensures var o := Iterate(d, f, x);
      var listening := !Fires(d.timeout, x.pingAt) && Counter(d) < d.updateSize;
      && (Fires(d.timeout, x.pingAt) ==> o.action == Nothing && Over(o.dev.status) && o.reply == Silent)
      && (!Fires(d.timeout, x.pingAt) && Counter(d) == d.updateSize ==>
            o.action == Commit && o.dev.status == LastCheck && o.reply == Silent)
      && (!Fires(d.timeout, x.pingAt) && Counter(d) > d.updateSize ==>
            o.action == Nothing && o.dev.status == ReceiveUpdate && o.reply == Silent && (LastOk(o.dev) <==> LastOk(d)))
      && (listening && x.packet == None ==>
            o.action == Nothing && o.dev.status == ReceiveUpdate && o.reply == Silent && (LastOk(o.dev) <==> LastOk(d)))
      && (listening && x.packet.Some? && Extract(x.packet.value, true).tag == TAG_INVALID ==>
            o.action == Nothing && o.dev.status == ReceiveUpdate && o.reply == Nack && (LastOk(o.dev) <==> LastOk(d)))
      && (listening && x.packet.Some? && Extract(x.packet.value, true).tag == TAG_FW_REP && LastOk(d) ==>
            o.action == Nothing && o.dev.status == ReceiveUpdate && o.reply == Ack && LastOk(o.dev))
      && (listening && x.packet.Some? && (Extract(x.packet.value, true).tag == TAG_FW_NEW
            || (Extract(x.packet.value, true).tag == TAG_FW_REP && !LastOk(d))) ==>
            o.action == Write(x.packet.value[2..], Extract(x.packet.value, true).length as nat)
            && o.dev.status == ReceiveUpdate && o.reply == Ack && LastOk(o.dev))
  {
    hide Iterate, Extract, Fires, Counter, LastOk, Over;
    UploadPauses(d, f, x);
    if !Fires(d.timeout, x.pingAt) && Counter(d) < d.updateSize && x.packet.Some? {
      UploadTakes(d, f, x, x.packet.value);
    }
  }

  /** Once the upload is over no frame of the sender starts another one. */
  lemma OverPass(d: Device, f: Image, x: Input)
    requires Over(d.status) && d.status != Done
    requires x.packet.Some? ==> Extract(x.packet.value, false).tag in {TAG_FW_NEW, TAG_FW_REP, TAG_INVALID}
    ensures var o := Iterate(d, f, x); o.action == Nothing && Over(o.dev.status) && o.reply != Ack
  {
    hide Extract, Bootable, Start, Reload, Ping;
  }

  lemma FrameArrives(tag: byte, chunk: seq<byte>, p: Packet)
    requires |chunk| <= CHUNK && Frame(tag, chunk, true) <= p
    ensures Extract(p, true) == Attr(tag, 0, |chunk| as byte) && (|chunk| as byte) as nat == |chunk|
    ensures p[2..][..|chunk|] == chunk && p[0] == tag
  {
    hide Frame, Extract;
    FrameRoundTrip(tag, chunk, true, p);
    ByteValue(|chunk|);
    FrameHead(tag, chunk, p);
    assert p[2..][..|chunk|] == p[2..2 + |chunk|];
  }

  lemma FrameHead(tag: byte, chunk: seq<byte>, p: Packet)
    requires |chunk| <= CHUNK && Frame(tag, chunk, true) <= p
    ensures p[0] == tag
  {
    hide Check;
    assert p[0] == Frame(tag, chunk, true)[0];
  }

  lemma ChunkAligned(file: seq<byte>, mask: seq<bool>, len: nat)
    requires CHUNK * |mask| <= |file| && len <= CHUNK
    ensures Aligned(|Select(file, mask)|, len)
  {
    SelectWhole(file, mask);
    var n := |Select(file, mask)|;
    assert n % CHUNK == 0 && PARAMS_SIZE % CHUNK == 0;
  }

  // ----- the steps, situation by situation -----

  lemma NextChunk(file: seq<byte>, mask: seq<bool>)
    ensures Select(file, mask + [true]) == Select(file, mask) + Chunk(file, |mask|)
    ensures Select(file, mask + [false]) == Select(file, mask)
  {
    assert (mask + [true])[..|mask|] == mask && (mask + [false])[..|mask|] == mask;
  }

  /** The device pass of a step keeps the system's invariant: the uploads of this sender are disciplined. */
  lemma StepAllowed(l: Link, rom: seq<byte>, base: seq<byte>, e: Step)
    requires LinkInv(l, rom, base) && Possible(l, e) && l.sys.dev.status != Done
    ensures Allowed(l.sys, Event.Pass(Observed(l, e)))
  {
    hide Iterate, Extract, Select, Inv, Chunk, Frame;
    var x := Observed(l, e);
    var d := l.sys.dev;
    ObservedTags(l, e);
    if d.status == ReceiveUpdate {
      UploadPass(d, l.sys.flash, x);
      if OutcomeOf(l.sys, x).action.Write? {
        WriteIsAligned(l, rom, base, e);
      }
    } else {
      OverPass(d, l.sys.flash, x);
    }
  }

  /** What a step can put into the mailbox. */
  lemma ObservedTags(l: Link, e: Step)
    requires Sane(l) && l.sender.phase == UPLOAD && Possible(l, e)
    ensures var x := Observed(l, e);
      x.packet.Some? ==>
        && Extract(x.packet.value, false).tag in {TAG_FW_NEW, TAG_FW_REP, TAG_INVALID}
        && e.Exchange? && Message(l.sender, l.file, l.id).Some?
        && (e.arrival.Garbled? ==> Extract(x.packet.value, true).tag == TAG_INVALID)
        && (e.arrival.Intact? ==>
              var chunk := Chunk(l.file, Current(l.sender));
              && chunk != []
              && Extract(x.packet.value, true)
                 == Attr(if l.sender.retry == 0 then TAG_FW_NEW else TAG_FW_REP, 0, |chunk| as byte)
              && (|chunk| as byte) as nat == |chunk| && x.packet.value[2..][..|chunk|] == chunk)
  {
    hide Extract, Frame, Chunk;
    var x := Observed(l, e);
    if x.packet.Some? {
      var chunk := Chunk(l.file, Current(l.sender));
      var tag := if l.sender.retry == 0 then TAG_FW_NEW else TAG_FW_REP;
      if e.arrival.Intact? {
        assert Frame(tag, chunk, true) <= x.packet.value;
        FrameArrives(tag, chunk, x.packet.value);
        ExtractedTag(x.packet.value, false);
      }
    }
  }

  lemma WriteIsAligned(l: Link, rom: seq<byte>, base: seq<byte>, e: Step)
    requires LinkInv(l, rom, base) && Possible(l, e) && l.sys.dev.status == ReceiveUpdate
    requires OutcomeOf(l.sys, Observed(l, e)).action.Write?
    ensures Aligned(l.sys.dev.upload.written, OutcomeOf(l.sys, Observed(l, e)).action.len)
  {
    hide Iterate, Extract, Select, Streamed, HandshakeInv, TimerInv;
    var x := Observed(l, e);
    var d := l.sys.dev;
    ObservedTags(l, e);
    UploadPass(d, l.sys.flash, x);
    PassShape(d, l.sys.flash, x);
    if l.sender.retry == 0 {
      ChunkNonEmpty(l.file, l.sender.read);
      ChunkAligned(l.file, l.mask, |Chunk(l.file, Current(l.sender))|);
    } else {
      assert l.mask == [false];
      NextChunk(l.file, []);
      assert [] + [false] == l.mask;
      SelectNothing(l.file);
    }
  }

  lemma SelectNothing(file: seq<byte>)
    ensures Select(file, []) == []
  {
  }

  /** A frame is acknowledged only by a device in the middle of the upload. */
  lemma SenderKeeps(l: Link, rom: seq<byte>, base: seq<byte>, e: Step)
    requires LinkInv(l, rom, base) && Possible(l, e)
    ensures SenderInv(Advance(l, e))
  {
    hide Iterate, Extract, Select, Inv, Chunk, Frame, IsAck, After;
    var x := Observed(l, e);
    var d := l.sys.dev;
    ObservedTags(l, e);
    if e.Exchange? && Message(l.sender, l.file, l.id).Some? {
      HeardAck(ReplyOf(l.sys, x), e.response);
    }
    ChunkNonEmpty(l.file, Current(l.sender));
    if d.status == ReceiveUpdate {
      UploadPass(d, l.sys.flash, x);
    } else if d.status != Done {
      OverPass(d, l.sys.flash, x);
    }
  }

  lemma ReceiveKeeps(l: Link, rom: seq<byte>, base: seq<byte>, e: Step)
    requires LinkInv(l, rom, base) && Possible(l, e) && l.sys.dev.status == ReceiveUpdate
    ensures DeviceInv(Advance(l, e), base)
  {
    hide Iterate, Extract, Select, Streamed, HandshakeInv, TimerInv, Chunk, Frame, IsAck, FlashAfter, ArmedAfter,
      AckedAfter, Complete;
    var x := Observed(l, e);
    var d, l' := l.sys.dev, Advance(l, e);
    ObservedTags(l, e);
    UploadPass(d, l.sys.flash, x);
    PassShape(d, l.sys.flash, x);
    NextChunk(l.file, l.mask);
    NextChunk(l.file, []);
    SelectNothing(l.file);
    SelectAll(l.file, l.mask);
    ChunkNonEmpty(l.file, Current(l.sender));
    CompleteMeans(l);
    assert [] + [true] == [true] && [] + [false] == [false];
    assert |l.mask| == 1 ==> l.mask == [] + [l.mask[0]];
    if OutcomeOf(l.sys, x).action == Commit {
      CompleteStays(l, e);
    }
  }

  /** Once every chunk is in, the mask cannot change any more. */
  lemma CompleteStays(l: Link, e: Step)
    requires Sane(l) && |l.file| > CHUNK && SenderInv(l) && Complete(l)
    ensures Complete(Advance(l, e))
  {
    hide Chunk, Frame, IsAck, After;
    ChunkNonEmpty(l.file, Current(l.sender));
  }

  lemma OverKeeps(l: Link, rom: seq<byte>, base: seq<byte>, e: Step)
    requires LinkInv(l, rom, base) && Possible(l, e) && l.sys.dev.status != ReceiveUpdate
    ensures DeviceInv(Advance(l, e), base)
  {
    hide Iterate, Extract, Select, Inv, Chunk, Frame, IsAck, FlashAfter, ArmedAfter,
      AckedAfter, Complete;
    var x := Observed(l, e);
    ObservedTags(l, e);
    if l.sys.dev.status != Done {
      OverPass(l.sys.dev, l.sys.flash, x);
    }
    if Complete(l) {
      CompleteStays(l, e);
    }
  }

  lemma StepKeeps(l: Link, rom: seq<byte>, base: seq<byte>, e: Step)
    requires LinkInv(l, rom, base) && Possible(l, e)
    ensures LinkInv(Advance(l, e), rom, base)
  {
    hide Inv, SenderInv, DeviceInv, Allowed, After, Message, IsAck, Mark, Hear, Observed;
    SenderKeeps(l, rom, base, e);
    if l.sys.dev.status == ReceiveUpdate {
      ReceiveKeeps(l, rom, base, e);
    } else {
      OverKeeps(l, rom, base, e);
    }
    if l.sys.dev.status != Done {
      StepAllowed(l, rom, base, e);
      EventKeeps(l.sys, rom, Event.Pass(Observed(l, e)));
    }
  }

  lemma {:induction false} RunLinkKeeps(l: Link, rom: seq<byte>, base: seq<byte>, es: seq<Step>)
    requires LinkInv(l, rom, base) && PossibleRun(l, es)
    ensures LinkInv(RunLink(l, es), rom, base)
    decreases |es|
  {
    hide LinkInv, Advance, Possible;
    if es != [] {
      LinkSane(l, rom, base);
      StepKeeps(l, rom, base, es[0]);
      RunLinkKeeps(Advance(l, es[0]), rom, base, es[1..]);
    }
  }

  lemma LinkSane(l: Link, rom: seq<byte>, base: seq<byte>)
    requires LinkInv(l, rom, base)
    ensures Sane(l)
  {
  }

  // ----- the results -----

  /** The sender has just entered FIRMWARE_UPLOAD and the device has just erased its partition, in any state
      a disciplined run can have brought it to. */
  ghost predicate UploadStart(l: Link, rom: seq<byte>) {
    && Sane(l) && PARAMS_SIZE + 4 <= |l.file| <= FW_CAPACITY
    && Inv(l.sys, rom)
    && l.sys.dev.status == ReceiveUpdate && l.sys.dev.last == EraseOldFw && l.sys.dev.updateSize == |l.file|
    && l.sender == Sender(UPLOAD, 0, 0) && l.mask == []
  }

  /**
   Delivery over a lossy line. What the device has written is, at any time, the chunks of the file whose first
   transmission it heard (and the first chunk, if it heard any transmission of it): in the file's order,
   none twice. The application region is replaced only if that was every chunk, and then by the file's.
   */
  lemma LossyDelivery(l0: Link, rom: seq<byte>, es: seq<Step>)
    requires UploadStart(l0, rom) && PossibleRun(l0, es)
    ensures var l := RunLink(l0, es);
      && (l.sys.dev.status == ReceiveUpdate ==> l.sys.payload == Select(l0.file, l.mask))
      && (l.sys.base != l0.sys.base ==> l.sys.base == Intended(l0.file) && Complete(l))
      && (Bootable(l.sys.flash) ==> App(l.sys.flash) == l.sys.base)
  {
    hide Select, Complete, Intended;
    StartInv(l0, rom);
    RunLinkKeeps(l0, rom, l0.sys.base, es);
    RunLinkFile(l0, es);
  }

  lemma {:induction false} RunLinkFile(l: Link, es: seq<Step>)
    requires Sane(l)
    ensures RunLink(l, es).file == l.file && Sane(RunLink(l, es))
    decreases |es|
  {
    hide Advance;
    if es != [] {
      RunLinkFile(Advance(l, es[0]), es[1..]);
    }
  }

  /**
   Exactly when an update completes: in a pass that does not time out, the entry word is programmed if and
   only if every chunk after the first was heard at its first transmission, and the first at any. A chunk
   lost once is never written, however often it is repeated.
   */
  lemma CommitIff(l0: Link, rom: seq<byte>, es: seq<Step>, e: Step)
    requires UploadStart(l0, rom) && PossibleRun(l0, es) && Sane(RunLink(l0, es)) && Possible(RunLink(l0, es), e)
    requires var l := RunLink(l0, es);
      l.sys.dev.status == ReceiveUpdate && !Fires(l.sys.dev.timeout, e.pingAt)
    ensures var l := RunLink(l0, es);
      && (OutcomeOf(l.sys, Observed(l, e)).action == Commit <==> Complete(l))
      && (Complete(l) ==> After(l.sys, Event.Pass(Observed(l, e))).flash[PARAMS_OFFSET..]
                          == l0.file + Blanks(FLASH_SIZE - PARAMS_OFFSET - |l0.file|))
  {
    hide LinkInv, Complete, Observed, Select;
    StartInv(l0, rom);
    RunLinkKeeps(l0, rom, l0.sys.base, es);
    RunLinkFile(l0, es);
    CommitNow(RunLink(l0, es), rom, l0.sys.base, e);
  }

  lemma StartInv(l: Link, rom: seq<byte>)
    requires UploadStart(l, rom)
    ensures LinkInv(l, rom, l.sys.base)
  {
    SelectNothing(l.file);
  }

  lemma CommitNow(l: Link, rom: seq<byte>, base: seq<byte>, e: Step)
    requires LinkInv(l, rom, base) && Possible(l, e)
    requires l.sys.dev.status == ReceiveUpdate && !Fires(l.sys.dev.timeout, e.pingAt)
    ensures OutcomeOf(l.sys, Observed(l, e)).action == Commit <==> Complete(l)
    ensures Complete(l) ==>
      After(l.sys, Event.Pass(Observed(l, e))).flash[PARAMS_OFFSET..]
      == l.file + Blanks(FLASH_SIZE - PARAMS_OFFSET - |l.file|)
  {
    hide Select, Complete, Intended, Iterate, ApplyAll, Streamed, Observed, HandshakeInv, TimerInv;
    var x := Observed(l, e);
    CompleteMeans(l);
    ObservedTimes(l, e);
    UploadPass(l.sys.dev, l.sys.flash, x);
    PassShape(l.sys.dev, l.sys.flash, x);
    SelectAll(l.file, l.mask);
    SelectBound(l.file, l.mask);
    if Complete(l) {
      CommitFits(l.sys, rom);
    }
  }

  lemma CompleteMeans(l: Link)
    ensures Complete(l) <==> |l.mask| == Chunks(l.file) && All(l.mask)
  {
  }

  lemma ObservedTimes(l: Link, e: Step)
    requires Sane(l)
    ensures Observed(l, e).pingAt == e.pingAt && Observed(l, e).actAt == e.actAt
  {
    hide Message;
  }

  /** Steps never change the mark of a chunk other than the first. */
  lemma {:induction false} MarksStay(l: Link, es: seq<Step>, i: nat)
    requires Sane(l) && SenderMask(l) && 0 < i < |l.mask|
    ensures var l' := RunLink(l, es); i < |l'.mask| && l'.mask[i] == l.mask[i]
    decreases |es|
  {
    hide Message, IsAck, DevicePass;
    if es != [] {
      MarksStay(Advance(l, es[0]), es[1..], i);
    }
  }

  predicate SenderMask(l: Link) {
    l.sender.phase == UPLOAD && |l.mask| == l.sender.read && (l.sender.retry > 0 ==> l.sender.read > 0)
  }

  /** One lost chunk after the first decides the whole upload: whatever the line does afterwards and however
      often the sender repeats itself, the application region is never replaced. */
  lemma LostChunkIsFinal(l0: Link, rom: seq<byte>, es: seq<Step>, rest: seq<Step>, i: nat)
    requires UploadStart(l0, rom) && PossibleRun(l0, es) && Sane(RunLink(l0, es)) && PossibleRun(RunLink(l0, es), rest)
    requires var l := RunLink(l0, es);
      l.sys.base == l0.sys.base && 0 < i < |l.mask| && !l.mask[i]
    ensures RunLink(RunLink(l0, es), rest).sys.base == l0.sys.base
  {
    hide LinkInv, Complete, RunLink, PossibleRun;
    StartInv(l0, rom);
    RunLinkKeeps(l0, rom, l0.sys.base, es);
    var l := RunLink(l0, es);
    RunLinkKeeps(l, rom, l0.sys.base, rest);
    InvSenderMask(l, rom, l0.sys.base);
    MarksStay(l, rest, i);
    CompleteMeans(RunLink(l, rest));
    BaseOf(RunLink(l, rest), rom, l0.sys.base);
  }

  lemma InvSenderMask(l: Link, rom: seq<byte>, base: seq<byte>)
    requires LinkInv(l, rom, base)
    ensures SenderMask(l)
  {
  }

  lemma BaseOf(l: Link, rom: seq<byte>, base: seq<byte>)
    requires LinkInv(l, rom, base)
    ensures l.sys.base == base || Complete(l)
  {
  }
}
