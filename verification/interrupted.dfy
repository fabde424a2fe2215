/**
 The lossy line and the power cuts together: one run of the script against a device that may be reset between any
 two of its flash commands, and whose application, once started, may change its parameters and reset.
 */
module Interrupted {
  import opened Bytes
  import opened Crc
  import opened CrcTheory
  import opened Memory
  import opened FlashIo
  import opened Protocol
  import opened Stimer
  import opened Update
  import opened CrashSafety
  import opened Host
  import opened Delivery
  import opened Handshake

  datatype Happening =
    /** A step of the line. */
    | Round(e: Step)
    /** A step during which the device is reset after k of its flash commands; its reply is lost. */
    | Cut(e: Step, k: nat, bootAt: nat)
    /** The application runs, changes only the parameter sector, and resets. */
    | Restart(ops: seq<FlashOp>, bootAt: nat)

  /** The step as the sender sees it when nothing comes of it. */
  function Unheard(e: Step): Step {
    match e
    case Exchange(_, _, pingAt, actAt) => Exchange(Missing, [], pingAt, actAt)
    case Idle(_, _) => e
  }

  function Happen(l: Link, h: Happening): (l': Link)
    requires Sane(l)
    ensures Sane(l') && l'.file == l.file
  {
    match h
    case Round(e) => Advance(l, e)
    case Cut(e, k, bootAt) => Advance(l, Unheard(e)).(sys := After(l.sys, PowerCut(Observed(l, e), k, bootAt)))
    case Restart(ops, bootAt) => l.(sys := After(l.sys, AppRun(ops, bootAt)))
  }

  predicate CanHappen(l: Link, h: Happening)
    requires Sane(l)
  {
    match h
    case Round(e) => Possible(l, e)
    case Cut(e, k, bootAt) => Possible(l, e) && Enabled(l.sys, PowerCut(Observed(l, e), k, bootAt))
    case Restart(ops, bootAt) => Enabled(l.sys, AppRun(ops, bootAt))
  }

  function HappenAll(l: Link, hs: seq<Happening>): (l': Link)
    requires Sane(l)
    ensures Sane(l') && l'.file == l.file
    decreases |hs|
  {
    if hs == [] then l else HappenAll(Happen(l, hs[0]), hs[1..])
  }

  predicate CanHappenAll(l: Link, hs: seq<Happening>)
    requires Sane(l)
    decreases |hs|
  {
    hs == [] || (CanHappen(l, hs[0]) && CanHappenAll(Happen(l, hs[0]), hs[1..]))
  }

  // ----- what a reset keeps -----

  lemma UnheardPossible(l: Link, e: Step)
    requires Sane(l) && Possible(l, e)
    ensures Possible(l, Unheard(e))
  {
    hide Message;
  }

  /** A reset during the handshake: the device starts over, the application is what it was. */
  lemma CutWhileShaking(l: Link, rom: seq<byte>, base: seq<byte>, e: Step, k: nat, bootAt: nat)
    requires ShakeInv(l, rom, base) && CanHappen(l, Cut(e, k, bootAt))
    ensures ShakeInv(Happen(l, Cut(e, k, bootAt)), rom, base)
  {
    hide Inv, Iterate, Observed, Message, IsAck, ReplyBytes, ReplyOf, DevicePass;
    var x := Observed(l, e);
    ShakeOutcome(l, rom, base, e);
    EventKeeps(l.sys, rom, PowerCut(x, k, bootAt));
    CutState(l.sys, x, k, bootAt);
    SenderUnheard(l, e);
  }

  lemma CutState(s: System, x: Input, k: nat, bootAt: nat)
    ensures var t := After(s, PowerCut(x, k, bootAt));
      && t.dev == Boot(bootAt) && t.payload == []
      && t.base == if OutcomeOf(s, x).action == Commit && k > 0 then Intended(s.payload) else s.base
  {
    hide Iterate, ApplyAll, Intended;
  }

  lemma SenderUnheard(l: Link, e: Step)
    requires Sane(l)
    ensures var l' := Advance(l, Unheard(e));
      && l'.sender.phase == l.sender.phase && l'.id == l.id
      && (l.sender.phase < UPLOAD ==> l'.sender.read == l.sender.read && l'.mask == l.mask)
  {
    hide Message, ReplyBytes, ReplyOf, DevicePass, Observed, Mark, Register, AllZero, BitsOf;
  }

  /** A reset during the upload: if it came after the commit, every chunk had been heard. */
  lemma CutWhileUploading(l: Link, rom: seq<byte>, base: seq<byte>, e: Step, k: nat, bootAt: nat)
    requires LinkInv(l, rom, base) && CanHappen(l, Cut(e, k, bootAt))
    ensures LinkInv(Happen(l, Cut(e, k, bootAt)), rom, base)
  {
    hide Inv, Iterate, Observed, Advance, Complete, Intended, Select, SenderInv, Possible, Boot;
    var x := Observed(l, e);
    StepAllowed(l, rom, base, e);
    EventKeeps(l.sys, rom, PowerCut(x, k, bootAt));
    UnheardPossible(l, e);
    SenderKeeps(l, rom, base, Unheard(e));
    var l' := Happen(l, Cut(e, k, bootAt));
    SenderInvOf(l', Advance(l, Unheard(e)));
    CompleteOf(l', Advance(l, Unheard(e)));
    CutState(l.sys, x, k, bootAt);
    BootOver(bootAt);
    CutBase(l, rom, base, e, k);
    if Complete(l) {
      CompleteStays(l, Unheard(e));
    }
  }

  lemma BootOver(bootAt: nat)
    ensures Over(Boot(bootAt).status) && Boot(bootAt).status != ReceiveUpdate
  {
  }

  lemma SenderInvOf(l: Link, m: Link)
    requires l.sender == m.sender && l.mask == m.mask && l.file == m.file && SenderInv(m)
    ensures SenderInv(l)
  {
  }

  lemma CompleteOf(l: Link, m: Link)
    requires l.mask == m.mask && l.file == m.file
    ensures Complete(l) <==> Complete(m)
  {
  }

  /** Only a complete upload is committed. */
  lemma CutBase(l: Link, rom: seq<byte>, base: seq<byte>, e: Step, k: nat)
    requires LinkInv(l, rom, base) && Possible(l, e) && l.sys.dev.status != Done
    ensures OutcomeOf(l.sys, Observed(l, e)).action == Commit ==>
      Complete(l) && l.sys.payload == l.file && l.sys.base == base
    ensures l.sys.base == base || (l.sys.base == Intended(l.file) && Complete(l))
  {
    hide Iterate, Select, Streaming, HandshakeInv, TimerInv, BaseInv, Observed, Intended;
    var x := Observed(l, e);
    PassShape(l.sys.dev, l.sys.flash, x);
    if OutcomeOf(l.sys, x).action == Commit {
      CompleteMeans(l);
      SelectAll(l.file, l.mask);
    }
  }

  lemma RestartKeeps(l: Link, rom: seq<byte>, base: seq<byte>, ops: seq<FlashOp>, bootAt: nat)
    requires WholeInv(l, rom, base) && CanHappen(l, Restart(ops, bootAt))
    ensures WholeInv(Happen(l, Restart(ops, bootAt)), rom, base)
  {
    hide Inv, ApplyAll, Complete, Intended, Select;
    EventKeeps(l.sys, rom, AppRun(ops, bootAt));
    var l' := Happen(l, Restart(ops, bootAt));
    CompleteOf(l', l);
  }

  lemma HappeningKeeps(l: Link, rom: seq<byte>, base: seq<byte>, h: Happening)
    requires WholeInv(l, rom, base) && Sane(l) && CanHappen(l, h)
    ensures WholeInv(Happen(l, h), rom, base)
  {
    hide ShakeInv, LinkInv, Happen, CanHappen;
    match h
    case Round(e) => RoundIsStep(l, e); WholeStep(l, rom, base, e);
    case Cut(e, k, bootAt) =>
      if ShakeInv(l, rom, base) {
        CutWhileShaking(l, rom, base, e, k, bootAt);
      } else {
        CutWhileUploading(l, rom, base, e, k, bootAt);
      }
    case Restart(ops, bootAt) => RestartKeeps(l, rom, base, ops, bootAt);
  }

  lemma RoundIsStep(l: Link, e: Step)
    requires Sane(l)
    ensures Happen(l, Round(e)) == Advance(l, e) && (CanHappen(l, Round(e)) <==> Possible(l, e))
  {
    hide Advance, Possible;
  }

  lemma {:induction false} AllKeep(l: Link, rom: seq<byte>, base: seq<byte>, hs: seq<Happening>)
    requires WholeInv(l, rom, base) && Sane(l) && CanHappenAll(l, hs)
    ensures WholeInv(HappenAll(l, hs), rom, base)
    decreases |hs|
  {
    hide WholeInv, Happen, CanHappen;
    if hs != [] {
      HappeningKeeps(l, rom, base, hs[0]);
      AllKeep(Happen(l, hs[0]), rom, base, hs[1..]);
    }
  }

  // ----- the result -----

  /**
   One run of the script, frames and replies lost or damaged, power failing between any two flash commands, the
   application running in between: whenever the device starts an application it is, byte for byte, the old one or
   the file's, and the file's only if every chunk was heard. Until then the region is one of the two or is not
   taken for an application.
   */
  lemma OldOrNew(l0: Link, hs: seq<Happening>)
    requires PowerOn(l0) && CanHappenAll(l0, hs)
    ensures var l := HappenAll(l0, hs);
      && (l.sys.dev.status == Done || Bootable(l.sys.flash) ==>
            App(l.sys.flash) == App(l0.sys.flash) || (App(l.sys.flash) == Intended(l0.file) && Complete(l)))
      && (l.sys.dev.status == ReceiveUpdate ==> l.sys.payload == Select(l0.file, l.mask))
      && l.sys.flash[..BL_SIZE] == l0.sys.flash[..BL_SIZE]
  {
    hide WholeInv, HappenAll, CanHappenAll;
    PowerOnInv(l0);
    AllKeep(l0, l0.sys.flash[..BL_SIZE], l0.sys.base, hs);
    WholeMeans(HappenAll(l0, hs), l0.sys.flash[..BL_SIZE], l0.sys.base);
  }

  lemma WholeMeans(l: Link, rom: seq<byte>, base: seq<byte>)
    requires WholeInv(l, rom, base)
    ensures l.sys.base == base || (l.sys.base == Intended(l.file) && Complete(l))
    ensures l.sys.dev.status == Done || Bootable(l.sys.flash) ==> App(l.sys.flash) == l.sys.base
    ensures l.sys.dev.status == ReceiveUpdate ==> l.sys.payload == Select(l.file, l.mask)
    ensures l.sys.flash[..BL_SIZE] == rom
  {
    hide Select, Complete, Intended, Session, HandshakeInv, TimerInv;
    SelectNothing(l.file);
  }
}
