/**
 The fault-free run: from reset to the application. Every frame and reply arrives, no wait times out; the
 device may still make idle passes anywhere.
 */
module Completeness {
  import opened Bytes
  import opened Memory
  import opened FlashIo
  import opened Protocol
  import opened Stimer
  import opened Update
  import opened CrashSafety
  import opened Host
  import opened Delivery
  import opened Handshake

  predicate Faultless(l: Link, e: Step)
    requires Sane(l)
  {
    && Possible(l, e)
    && (e.Exchange? ==> e.arrival.Intact? && e.response == ReplyBytes(ReplyOf(l.sys, Observed(l, e))))
    && (Waiting(l.sys.dev.status) ==> !Fires(l.sys.dev.timeout, e.pingAt))
  }

  predicate FaultlessRun(l: Link, es: seq<Step>)
    requires Sane(l)
    decreases |es|
  {
    es == [] || (Faultless(l, es[0]) && FaultlessRun(Advance(l, es[0]), es[1..]))
  }

  function Rounds(es: seq<Step>): nat {
    if es == [] then 0 else (if es[0].Exchange? then 1 else 0) + Rounds(es[1..])
  }

  /** How many exchanges bring the image across. */
  function Needed(l: Link): nat {
    UPLOAD + Chunks(l.file)
  }

  ghost predicate Shaking(l: Link, rom: seq<byte>, base: seq<byte>, k: nat)
    requires k < UPLOAD
  {
    && Sane(l) && PARAMS_SIZE + 4 <= |l.file| <= FW_CAPACITY
    && Inv(l.sys, rom) && l.sys.base == base
    && l.sender == Sender(k, 0, 0) && l.mask == []
    && l.sys.dev.status == Awaiting(k) && l.sys.dev.upload.written == 0
    && DeviceId(l.sys.flash) == l.id
    && (k == 4 ==> l.sys.dev.updateSize == |l.file|)
  }

  ghost predicate Uploading(l: Link, rom: seq<byte>, base: seq<byte>, n: nat) {
    && LinkInv(l, rom, base) && l.sys.dev.status == ReceiveUpdate
    && l.sender == Sender(UPLOAD, 0, n) && All(l.mask)
  }

  ghost predicate Installed(l: Link) {
    && |l.file| <= FW_CAPACITY
    && l.sys.flash[PARAMS_OFFSET..] == l.file + Blanks(FLASH_SIZE - PARAMS_OFFSET - |l.file|)
  }

  ghost predicate Settled(l: Link, rom: seq<byte>, base: seq<byte>) {
    && LinkInv(l, rom, base) && Installed(l) && Chunk(l.file, Current(l.sender)) == []
    && l.sys.dev.status == if Bootable(l.sys.flash) then Done else InfiniteLoop
  }

  /** The run is k exchanges or final passes from its start. */
  ghost predicate Stage(l: Link, rom: seq<byte>, base: seq<byte>, k: nat) {
    Sane(l) &&
    if k < UPLOAD then Shaking(l, rom, base, k)
    else if k <= Needed(l) then Uploading(l, rom, base, k - UPLOAD)
    else if k == Needed(l) + 1 then
      LinkInv(l, rom, base) && Installed(l) && Chunk(l.file, Current(l.sender)) == [] && l.sys.dev.status == LastCheck
    else Settled(l, rom, base)
  }

  // ----- one step -----

  lemma IdleShakes(d: Device, f: Image, x: Input, k: nat)
    requires k < UPLOAD && d.status == Awaiting(k) && !Fires(d.timeout, x.pingAt) && x.packet == None
    ensures Iterate(d, f, x) == Outcome(d, Nothing, Silent)
  {
  }

  /** In handshake state k the mailbox holds request k, or nothing. */
  lemma ShakingMailbox(l: Link, rom: seq<byte>, base: seq<byte>, k: nat, e: Step)
    requires k < UPLOAD && Shaking(l, rom, base, k) && Faultless(l, e)
    ensures Message(l.sender, l.file, l.id).Some?
    ensures var x := Observed(l, e);
      && (e.Idle? ==> x.packet == None)
      && (e.Exchange? ==>
            && x.packet.Some? && Extract(x.packet.value, false).tag == RequestTag(k)
            && (k == 2 || k == 3 ==> x.packet.value[2..6] == RequestData(k, l.file, l.id)))
  {
    hide Frame, Extract, Inv, ToLittleEndian;
    var x := Observed(l, e);
    if e.Exchange? {
      RequestArrives(RequestTag(k), RequestData(k, l.file, l.id), x.packet.value);
    }
  }

  lemma ShakingOutcome(l: Link, rom: seq<byte>, base: seq<byte>, k: nat, e: Step)
    requires k < UPLOAD && Shaking(l, rom, base, k) && Faultless(l, e)
    ensures var x := Observed(l, e);
      var o := OutcomeOf(l.sys, x);
      && (e.Idle? ==> o == Outcome(l.sys.dev, Nothing, Silent))
      && (e.Exchange? ==>
            && o.reply == Ack && o.dev.upload == l.sys.dev.upload
            && o.dev.status == (if k == 4 then ReceiveUpdate else Awaiting(k + 1)) && o.dev.last == l.sys.dev.status
            && o.action == (if k == 4 then ErasePartition else Nothing)
            && (k >= 3 ==> o.dev.updateSize == |l.file|))
  {
    hide Frame, Extract, Inv, Iterate, DeviceId, Message, Observed;
    ShakingMailbox(l, rom, base, k, e);
    ObservedTimes(l, e);
    var x := Observed(l, e);
    if e.Idle? {
      IdleShakes(l.sys.dev, l.sys.flash, x, k);
    } else {
      RequestAccepted(l.sys.dev, l.sys.flash, x, k, x.packet.value, |l.file|);
    }
  }

  lemma ShakingStep(l: Link, rom: seq<byte>, base: seq<byte>, k: nat, e: Step)
    requires k < UPLOAD && Shaking(l, rom, base, k) && Faultless(l, e)
    ensures var l' := Advance(l, e);
      if e.Idle? then Shaking(l', rom, base, k)
      else if k < 4 then Shaking(l', rom, base, k + 1)
      else Uploading(l', rom, base, 0)
  {
    hide Frame, Extract, FlashInv, HandshakeInv, TimerInv, Iterate, DeviceId, IsAck, ArmedAfter, AckedAfter,
      Ops, ApplyAll, Select;
    var x := Observed(l, e);
    ShakingMailbox(l, rom, base, k, e);
    ShakingOutcome(l, rom, base, k, e);
    ObservedTimes(l, e);
    AckRecognized(ReplyOf(l.sys, x));
    EventKeeps(l.sys, rom, Event.Pass(x));
    NoOps(l.sys.dev.upload);
    SelectNothing(l.file);
  }

  lemma UploadingStep(l: Link, rom: seq<byte>, base: seq<byte>, n: nat, e: Step)
    requires Uploading(l, rom, base, n) && n < Chunks(l.file) && Faultless(l, e)
    ensures Uploading(Advance(l, e), rom, base, if e.Exchange? then n + 1 else n)
  {
    hide Frame, Extract, Inv, Iterate, IsAck, FlashAfter, ArmedAfter, AckedAfter, Intended, Select, Chunk;
    var x := Observed(l, e);
    ObservedTimes(l, e);
    ObservedTags(l, e);
    StepKeeps(l, rom, base, e);
    AckRecognized(ReplyOf(l.sys, x));
    ChunkNonEmpty(l.file, n);
    NotYet(l, rom, base);
    UploadPass(l.sys.dev, l.sys.flash, x);
  }

  /** Until every chunk is in, the device keeps listening. */
  lemma NotYet(l: Link, rom: seq<byte>, base: seq<byte>)
    requires LinkInv(l, rom, base) && l.sys.dev.status == ReceiveUpdate && |l.mask| < Chunks(l.file)
    ensures Counter(l.sys.dev) < l.sys.dev.updateSize
  {
    hide Select, Streamed, HandshakeInv, TimerInv;
    SelectBound(l.file, l.mask);
    SelectAll(l.file, l.mask);
  }

  lemma FinalStep(l: Link, rom: seq<byte>, base: seq<byte>, e: Step)
    requires Uploading(l, rom, base, Chunks(l.file)) && Faultless(l, e)
    ensures var l' := Advance(l, e);
      && LinkInv(l', rom, base) && Installed(l') && Chunk(l'.file, Current(l'.sender)) == []
      && l'.sys.dev.status == LastCheck
  {
    hide Frame, Extract, Inv, Iterate, IsAck, Select, FlashAfter;
    var x := Observed(l, e);
    ObservedTimes(l, e);
    ChunkNonEmpty(l.file, Chunks(l.file));
    StepKeeps(l, rom, base, e);
    CompleteMeans(l);
    CommitNow(l, rom, base, e);
    PassShape(l.sys.dev, l.sys.flash, x);
  }

  lemma LastCheckPass(d: Device, f: Image, x: Input)
    requires d.status == LastCheck || (d.status == InfiniteLoop && !Bootable(f) && x.packet == None)
    ensures var o := Iterate(d, f, x);
      o.action == Nothing && o.dev.status == (if Bootable(f) then Done else InfiniteLoop)
  {
    hide Bootable;
  }

  lemma SettlingStep(l: Link, rom: seq<byte>, base: seq<byte>, e: Step)
    requires LinkInv(l, rom, base) && Installed(l) && Chunk(l.file, Current(l.sender)) == [] && Faultless(l, e)
    requires l.sys.dev.status == LastCheck || Settled(l, rom, base)
    ensures Settled(Advance(l, e), rom, base)
  {
    hide Extract, Inv, Iterate, IsAck, Select, Bootable, Ops, ApplyAll;
    var x := Observed(l, e);
    StepKeeps(l, rom, base, e);
    if l.sys.dev.status != Done {
      LastCheckPass(l.sys.dev, l.sys.flash, x);
      NoOps(l.sys.dev.upload);
    }
  }

  function NextStage(l: Link, k: nat, e: Step): nat {
    if k >= Needed(l) + 2 then k
    else if k >= Needed(l) || e.Exchange? then k + 1
    else k
  }

  lemma StageStep(l: Link, rom: seq<byte>, base: seq<byte>, k: nat, e: Step)
    requires Sane(l) && Stage(l, rom, base, k) && Faultless(l, e)
    ensures Stage(Advance(l, e), rom, base, NextStage(l, k, e))
  {
    hide Shaking, Uploading, Installed, LinkInv, Advance, Faultless, Chunks;
    if k < UPLOAD {
      ShakingStep(l, rom, base, k, e);
    } else if k < Needed(l) {
      UploadingStep(l, rom, base, k - UPLOAD, e);
    } else if k == Needed(l) {
      FinalStep(l, rom, base, e);
    } else if k == Needed(l) + 1 {
      SettlingStep(l, rom, base, e);
    } else {
      SettledParts(l, rom, base);
      SettlingStep(l, rom, base, e);
    }
  }

  lemma SettledParts(l: Link, rom: seq<byte>, base: seq<byte>)
    requires Settled(l, rom, base)
    ensures LinkInv(l, rom, base) && Installed(l) && Chunk(l.file, Current(l.sender)) == []
  {
  }

  lemma {:induction false} StageRun(l: Link, rom: seq<byte>, base: seq<byte>, k: nat, es: seq<Step>) returns (k': nat)
    requires Sane(l) && Stage(l, rom, base, k) && FaultlessRun(l, es)
    ensures Stage(RunLink(l, es), rom, base, k') && RunLink(l, es).file == l.file
    ensures k <= k' <= k + |es| && (k + Rounds(es) <= Needed(l) ==> k' >= k + Rounds(es))
    ensures k + Rounds(es) >= Needed(l) ==> k' >= Needed(l)
    ensures k >= Needed(l) && k + |es| >= Needed(l) + 2 ==> k' >= Needed(l) + 2
    decreases |es|
  {
    hide Stage, Advance, Faultless, Chunks;
    if es == [] {
      k' := k;
    } else {
      StageStep(l, rom, base, k, es[0]);
      AdvanceKeeps(l, es[0]);
      k' := StageRun(Advance(l, es[0]), rom, base, NextStage(l, k, es[0]), es[1..]);
    }
  }

  lemma AdvanceKeeps(l: Link, e: Step)
    requires Sane(l)
    ensures Sane(Advance(l, e)) && Advance(l, e).file == l.file
  {
  }

  lemma {:induction false} RunLinkConcat(l: Link, a: seq<Step>, b: seq<Step>)
    requires Sane(l) && FaultlessRun(l, a + b)
    ensures FaultlessRun(l, a) && Sane(RunLink(l, a)) && FaultlessRun(RunLink(l, a), b)
    ensures RunLink(l, a + b) == RunLink(RunLink(l, a), b)
    decreases |a|
  {
    hide Advance, Faultless;
    if a == [] {
      assert a + b == b;
    } else {
      assert (a + b)[1..] == a[1..] + b;
      AdvanceKeeps(l, a[0]);
      RunLinkConcat(Advance(l, a[0]), a[1..], b);
    }
  }

  // ----- the result -----

  /**
   Completeness. From reset, with the device id matching and an image of 0x4004 to 0x78000 bytes, when all
   frames and replies arrive and no wait times out: after the five exchanges of the handshake, one for each
   chunk, and two more passes, the flash from 0x08004000 on is the image followed by blanks, and the device
   leaves for the application exactly when the image's entry word is neither blank nor zero.
   */
  lemma FaultFreeUpdate(l0: Link, es: seq<Step>, rest: seq<Step>)
    requires PowerOn(l0) && DeviceId(l0.sys.flash) == l0.id
    requires FaultlessRun(l0, es + rest) && Rounds(es) >= Needed(l0) && |rest| >= 2
    ensures var l := RunLink(l0, es + rest);
      && l.sys.flash[PARAMS_OFFSET..] == l0.file + Blanks(FLASH_SIZE - PARAMS_OFFSET - |l0.file|)
      && l.sys.flash[..BL_SIZE] == l0.sys.flash[..BL_SIZE]
      && l.sys.dev.status ==
         if l0.file[PARAMS_SIZE..PARAMS_SIZE + 4] != BLANK_WORD && l0.file[PARAMS_SIZE..PARAMS_SIZE + 4] != ZERO_WORD
         then Done else InfiniteLoop
  {
    hide Advance, Faultless, Inv, Uploading, LinkInv, Chunks;
    var rom, base := l0.sys.flash[..BL_SIZE], l0.sys.base;
    InitialInv(l0.sys);
    assert Stage(l0, rom, base, 0);
    RunLinkConcat(l0, es, rest);
    var k := StageRun(l0, rom, base, 0, es);
    var l1 := RunLink(l0, es);
    var k' := StageRun(l1, rom, base, k, rest);
    var l := RunLink(l0, es + rest);
    InstalledEntry(l);
    RomOf(l, rom, base);
  }

  lemma RomOf(l: Link, rom: seq<byte>, base: seq<byte>)
    requires LinkInv(l, rom, base)
    ensures l.sys.flash[..BL_SIZE] == rom
  {
  }

  lemma InstalledEntry(l: Link)
    requires Installed(l) && |l.file| >= PARAMS_SIZE + 4
    ensures Entry(l.sys.flash) == l.file[PARAMS_SIZE..PARAMS_SIZE + 4]
  {
    var f := l.sys.flash;
    SliceOfSlice(f, PARAMS_OFFSET, |f|, PARAMS_SIZE, PARAMS_SIZE + 4);
    assert f[PARAMS_OFFSET..|f|] == f[PARAMS_OFFSET..];
    var tail := Blanks(FLASH_SIZE - PARAMS_OFFSET - |l.file|);
    assert (l.file + tail)[PARAMS_SIZE..PARAMS_SIZE + 4] == l.file[PARAMS_SIZE..PARAMS_SIZE + 4];
  }

  // ----- such runs exist -----

  /** An exchange in which no time passes. */
  function Instant(l: Link): Step
    requires Sane(l)
  {
    var arrival := Intact(seq(SPAN, _ => 0));
    var x := Observed(l, Exchange(arrival, [], l.sys.now, l.sys.now));
    Exchange(arrival, ReplyBytes(ReplyOf(l.sys, x)), l.sys.now, l.sys.now)
  }

  lemma InstantStep(l: Link, rom: seq<byte>, base: seq<byte>, k: nat)
    requires Sane(l) && Stage(l, rom, base, k) && l.sys.now == l.sys.armedAt
    ensures Faultless(l, Instant(l)) && Faultless(l, Idle(l.sys.now, l.sys.now))
    ensures forall e :: e == Instant(l) || e == Idle(l.sys.now, l.sys.now) ==>
      Advance(l, e).sys.now == Advance(l, e).sys.armedAt == l.sys.now
  {
    hide Message, Delivery.Delivered, FlashInv, HandshakeInv, DeviceInv, SenderInv, Iterate, FlashAfter, AckedAfter;
    StageTimer(l, rom, base, k);
  }

  lemma StageTimer(l: Link, rom: seq<byte>, base: seq<byte>, k: nat)
    requires Sane(l) && Stage(l, rom, base, k)
    ensures TimerInv(l.sys)
  {
    hide FlashInv, HandshakeInv, TimerInv, DeviceInv, SenderInv;
  }

  lemma {:induction false} FaultFreeRunFrom(l: Link, rom: seq<byte>, base: seq<byte>, k: nat, n: nat)
      returns (es: seq<Step>)
    requires Sane(l) && Stage(l, rom, base, k) && l.sys.now == l.sys.armedAt
    ensures FaultlessRun(l, es) && |es| == n && Rounds(es) == n
    ensures var l' := RunLink(l, es); l'.sys.now == l'.sys.armedAt
    decreases n
  {
    hide Stage, Faultless, Advance;
    if n == 0 {
      es := [];
    } else {
      var e := Instant(l);
      InstantStep(l, rom, base, k);
      StageStep(l, rom, base, k, e);
      AdvanceKeeps(l, e);
      var rest := FaultFreeRunFrom(Advance(l, e), rom, base, NextStage(l, k, e), n - 1);
      es := [e] + rest;
      assert es[1..] == rest;
    }
  }

  /** FaultFreeUpdate is about something: from any such start there is a run of the kind it describes. */
  lemma FaultFreeRunExists(l0: Link) returns (es: seq<Step>, rest: seq<Step>)
    requires PowerOn(l0) && DeviceId(l0.sys.flash) == l0.id
    ensures FaultlessRun(l0, es + rest) && Rounds(es) >= Needed(l0) && |rest| == 2
  {
    hide Advance, Faultless, Inv, Uploading, LinkInv, Chunks;
    var rom, base := l0.sys.flash[..BL_SIZE], l0.sys.base;
    InitialInv(l0.sys);
    assert Stage(l0, rom, base, 0);
    var all := FaultFreeRunFrom(l0, rom, base, 0, Needed(l0) + 2);
    es, rest := all[..Needed(l0)], all[Needed(l0)..];
    assert es + rest == all;
    RoundsSplit(es, rest);
    RoundsBound(rest);
  }

  lemma {:induction false} RoundsSplit(a: seq<Step>, b: seq<Step>)
    ensures Rounds(a + b) == Rounds(a) + Rounds(b)
  {
    if a == [] {
      assert a + b == b;
    } else {
      assert (a + b)[1..] == a[1..] + b;
      RoundsSplit(a[1..], b);
    }
  }

  lemma {:induction false} RoundsBound(es: seq<Step>)
    ensures Rounds(es) <= |es|
  {
    if es != [] {
      RoundsBound(es[1..]);
    }
  }

  // ----- and runs that lose a chunk -----

  lemma {:induction false} FaultlessIsPossible(l: Link, es: seq<Step>)
    requires Sane(l) && FaultlessRun(l, es)
    ensures PossibleRun(l, es)
    decreases |es|
  {
    hide Possible, Advance;
    if es != [] {
      AdvanceKeeps(l, es[0]);
      FaultlessIsPossible(Advance(l, es[0]), es[1..]);
    }
  }

  /** n exchanges from power-on that lose nothing. */
  lemma InstantRun(l0: Link, n: nat) returns (es: seq<Step>)
    requires PowerOn(l0) && DeviceId(l0.sys.flash) == l0.id && n <= Needed(l0)
    ensures PossibleRun(l0, es)
    ensures var l := RunLink(l0, es);
      Sane(l) && Stage(l, l0.sys.flash[..BL_SIZE], l0.sys.base, n) && l.sys.now == l.sys.armedAt
  {
    hide Stage, Faultless, Advance, Chunks, Inv;
    var rom, base := l0.sys.flash[..BL_SIZE], l0.sys.base;
    StartStage(l0);
    es := FaultFreeRunFrom(l0, rom, base, 0, n);
    var k := StageRun(l0, rom, base, 0, es);
    FaultlessIsPossible(l0, es);
    RunLinkFile(l0, es);
  }

  lemma StartStage(l0: Link)
    requires PowerOn(l0) && DeviceId(l0.sys.flash) == l0.id
    ensures Stage(l0, l0.sys.flash[..BL_SIZE], l0.sys.base, 0)
  {
    hide Inv, Uploading, LinkInv;
    InitialInv(l0.sys);
  }

  lemma PhaseOfStage(l: Link, rom: seq<byte>, base: seq<byte>, k: nat)
    requires Stage(l, rom, base, k) && k <= Needed(l)
    ensures k < UPLOAD ==> l.sender == Sender(k, 0, 0)
    ensures k >= UPLOAD ==> Uploading(l, rom, base, k - UPLOAD)
  {
    hide LinkInv, Inv;
  }

  /** CommitIff and LostChunkIsFinal are about something: from reset the line can bring the sender into the
      upload and lose its second chunk. */
  lemma LostChunkHappens(l0: Link) returns (es: seq<Step>, e: Step, rest: seq<Step>)
    requires PowerOn(l0) && DeviceId(l0.sys.flash) == l0.id
    ensures PossibleRun(l0, es) && Sane(RunLink(l0, es)) && Possible(RunLink(l0, es), e)
    ensures var l := Advance(RunLink(l0, es), e);
      && UploadStart(l, l0.sys.flash[..BL_SIZE]) && PossibleRun(l, rest)
      && var t := RunLink(l, rest); t.mask == [true, false] && t.sys.base == l0.sys.base
  {
    hide Stage, Faultless, Advance, Chunks, Inv, UploadStart, Uploading, RunLink, PossibleRun;
    var rom, base := l0.sys.flash[..BL_SIZE], l0.sys.base;
    ManyChunks(l0);
    es := InstantRun(l0, 4);
    var l4 := RunLink(l0, es);
    RunLinkFile(l0, es);
    e := Instant(l4);
    var l5 := InstantStage(l4, rom, base, 4);
    UploadStarts(l0, es, e);
    var l6 := InstantStage(l5, rom, base, 5);
    PhaseOfStage(l6, rom, base, 6);
    var lost := Exchange(Missing, [], l6.sys.now, l6.sys.now);
    SecondLost(l6, rom, base, lost);
    rest := [Instant(l5), lost];
    TwoSteps(l5, Instant(l5), lost);
  }

  lemma ManyChunks(l: Link)
    requires PowerOn(l)
    ensures Needed(l) > 6
  {
  }

  lemma InstantStage(l: Link, rom: seq<byte>, base: seq<byte>, k: nat) returns (l': Link)
    requires Sane(l) && Stage(l, rom, base, k) && l.sys.now == l.sys.armedAt && k < Needed(l)
    ensures Possible(l, Instant(l)) && l' == Advance(l, Instant(l)) && Sane(l') && l'.file == l.file
    ensures Stage(l', rom, base, k + 1) && l'.sys.now == l'.sys.armedAt
    ensures k < UPLOAD ==> l.sender.phase == k
    ensures k + 1 >= UPLOAD ==> l'.sender.phase == UPLOAD
  {
    hide Stage, Advance, Chunks, Possible;
    InstantStep(l, rom, base, k);
    StageStep(l, rom, base, k, Instant(l));
    AdvanceKeeps(l, Instant(l));
    l' := Advance(l, Instant(l));
    PhaseOfStage(l, rom, base, k);
    PhaseOfStage(l', rom, base, k + 1);
  }

  lemma TwoSteps(l: Link, e: Step, e': Step)
    requires Sane(l) && Possible(l, e) && Possible(Advance(l, e), e')
    ensures PossibleRun(l, [e, e']) && RunLink(l, [e, e']) == Advance(Advance(l, e), e')
  {
    hide Advance, Possible;
    assert [e, e'][1..] == [e'] && [e'][1..] == [];
    var l2 := Advance(Advance(l, e), e');
    assert PossibleRun(l2, []) && RunLink(l2, []) == l2;
  }

  lemma SecondLost(l: Link, rom: seq<byte>, base: seq<byte>, e: Step)
    requires Uploading(l, rom, base, 1) && |l.file| > CHUNK
    requires e == Exchange(Missing, [], l.sys.now, l.sys.now)
    ensures Sane(l) && Possible(l, e) && Advance(l, e).mask == [true, false] && Advance(l, e).sys.base == base
  {
    hide Inv, DeviceInv, Chunk, Frame, IsAck, DevicePass, ReplyOf;
    StepKeeps(l, rom, base, e);
    BaseOf(Advance(l, e), rom, base);
    ChunkNonEmpty(l.file, 1);
    CompleteMeans(Advance(l, e));
  }
}
