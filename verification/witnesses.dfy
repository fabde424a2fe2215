/**
 Runs that reach the situations CrashSafety and UploadLimits speak of: from every power-on state there is a
 run into each of them.
 */
module Witnesses {
  import opened Bytes
  import opened Memory
  import opened FlashIo
  import opened Protocol
  import opened Stimer
  import opened Update
  import opened CrashSafety
  import opened UploadLimits
  import opened Host
  import opened Delivery
  import opened Handshake

  // ----- putting runs together -----

  lemma {:induction false} Joined(s: System, a: seq<Event>, b: seq<Event>)
    requires Feasible(s, a) && Feasible(Run(s, a), b)
    ensures Feasible(s, a + b) && Run(s, a + b) == Run(Run(s, a), b)
    ensures Legal(s, a) && Legal(Run(s, a), b) ==> Legal(s, a + b)
    decreases |a|
  {
    hide Enabled, Allowed, After;
    if a == [] {
      assert a + b == b;
    } else {
      assert (a + b)[1..] == a[1..] + b;
      Joined(After(s, a[0]), a[1..], b);
    }
  }

  lemma Single(s: System, e: Event)
    requires Enabled(s, e)
    ensures Feasible(s, [e]) && Run(s, [e]) == After(s, e) && (Allowed(s, e) ==> Legal(s, [e]))
  {
    hide Enabled, Allowed, After;
    assert [e][1..] == [];
    assert Feasible(After(s, e), []) && Legal(After(s, e), []) && Run(After(s, e), []) == After(s, e);
  }

  /** A frame at the front of the packet buffer. */
  function Padded(frame: seq<byte>): Packet {
    frame + seq(SPAN, _ => 0)
  }

  /** A pass that takes no time and finds the frame. */
  function Prompt(s: System, frame: seq<byte>): Input {
    Input(s.now, Some(Padded(frame)), s.now)
  }

  // ----- the handshake -----

  /** The timeout has not run out yet. */
  predicate Patient(s: System) {
    !s.dev.timeout.hasElapsed && s.now < s.dev.timeout.targetTime && s.dev.timeout.waitTime > 0
  }

  /** On the way through the handshake, k requests acknowledged. */
  predicate Shaken(s: System, k: nat, size: nat) {
    && k < UPLOAD && s.dev.status == Awaiting(k) && Patient(s) && (k == 4 ==> s.dev.updateSize == size)
  }

  /** An upload under way: n bytes accepted in this session. */
  predicate Fed(s: System, size: nat, n: nat) {
    && s.dev.status == ReceiveUpdate && Patient(s) && s.dev.updateSize == size && Counter(s.dev) == n
    && |s.payload| == n
  }

  function RequestFrame(k: nat, size: nat, id: seq<byte>): seq<byte>
    requires k < UPLOAD && size < 0x1_0000_0000 && |id| == 4
  {
    Frame(RequestTag(k), if k == 2 then id else if k == 3 then ToLittleEndian(size) else [], false)
  }

  lemma RequestStep(s: System, k: nat, size: nat)
    requires Shaken(s, k, size) && 0 < size <= FW_CAPACITY
    ensures var e := Event.Pass(Prompt(s, RequestFrame(k, size, DeviceId(s.flash))));
      var t := After(s, e);
      && Enabled(s, e) && (s.dev.upload.written == 0 ==> Allowed(s, e))
      && t.dev.upload == s.dev.upload && t.now == s.now && t.base == s.base
      && (if k == 4 then Fed(t, size, 0) && t.held == 0 && t.payload == [] else Shaken(t, k + 1, size))
  {
    hide Frame, Extract, DeviceId, ToLittleEndian, Iterate, FlashAfter, AckedAfter, ArmedAfter;
    var id := DeviceId(s.flash);
    var data := if k == 2 then id else if k == 3 then ToLittleEndian(size) else [];
    var p := Padded(RequestFrame(k, size, id));
    RequestArrives(RequestTag(k), data, p);
    RequestAccepted(s.dev, s.flash, Prompt(s, RequestFrame(k, size, id)), k, p, size);
    RequestTimer(s.dev, s.flash, Prompt(s, RequestFrame(k, size, id)), k);
  }

  lemma RequestTimer(d: Device, f: Image, x: Input, k: nat)
    requires k < UPLOAD && d.status == Awaiting(k)
    ensures var o := Iterate(d, f, x);
      o.reply == Ack && o.dev.status == Acknowledged(k) && !d.timeout.hasElapsed && !Fires(d.timeout, x.pingAt) ==>
        o.dev.timeout == if k == 4 then Start(x.actAt, 10000, false) else Reload(d.timeout, x.actAt)
  {
    hide Extract, DeviceId, CheckUpdateSize;
  }

  lemma {:induction false} ShakeRun(s: System, k: nat, size: nat) returns (es: seq<Event>)
    requires Shaken(s, k, size) && 0 < size <= FW_CAPACITY
    ensures Feasible(s, es) && (s.dev.upload.written == 0 ==> Legal(s, es))
    ensures var t := Run(s, es);
      Fed(t, size, 0) && t.dev.upload == s.dev.upload && t.held == 0 && t.payload == [] && t.now == s.now
      && t.base == s.base
    decreases UPLOAD - k
  {
    hide After, Enabled, Allowed, Shaken, Fed;
    ShakenPhase(s, k, size);
    var e := Event.Pass(Prompt(s, RequestFrame(k, size, DeviceId(s.flash))));
    RequestStep(s, k, size);
    Single(s, e);
    es := [e];
    if k < 4 {
      var rest := ShakeRun(After(s, e), k + 1, size);
      Joined(s, [e], rest);
      es := [e] + rest;
    }
  }

  lemma ShakenPhase(s: System, k: nat, size: nat)
    requires Shaken(s, k, size)
    ensures k < UPLOAD
  {
  }

  lemma FreshShaken(s0: System, size: nat)
    requires Initial(s0)
    ensures Shaken(s0, 0, size) && s0.dev.upload == RESET_UPLOAD && s0.base == App(s0.flash)
  {
  }

  // ----- chunks -----

  function ChunkPass(s: System, chunk: seq<byte>): (x: Input)
    requires |chunk| <= CHUNK
    ensures x.packet.Some?
  {
    Prompt(s, Frame(TAG_FW_NEW, chunk, true))
  }

  lemma ChunkStep(s: System, size: nat, n: nat, chunk: seq<byte>)
    requires Fed(s, size, n) && n < size && |chunk| <= CHUNK
    ensures var x := ChunkPass(s, chunk);
      var t := After(s, Event.Pass(x));
      && Enabled(s, Event.Pass(x)) && OutcomeOf(s, x).action == Write(x.packet.value[2..], |chunk|)
      && x.packet.value[2..][..|chunk|] == chunk
      && (Aligned(s.dev.upload.written, |chunk|) ==> Allowed(s, Event.Pass(x)))
      && Fed(t, size, n + |chunk|) && t.payload == s.payload + chunk && t.base == s.base && t.now == s.now
      && t.dev.upload.written == s.dev.upload.written + |chunk|
      && t.held == HeldBytes(s.held, s.dev.upload, |chunk|)
  {
    hide Frame, Extract, Iterate, FlashAfter, AckedAfter, ArmedAfter;
    var x := ChunkPass(s, chunk);
    FrameArrives(TAG_FW_NEW, chunk, x.packet.value);
    UploadTakes(s.dev, s.flash, x, x.packet.value);
    PassShape(s.dev, s.flash, x);
    ReceivingTimer(s.dev, s.flash, x);
  }

  /** m chunks of four bytes, ending before the vector table. */
  lemma {:induction false} ChunkRun(s: System, size: nat, n: nat, m: nat) returns (es: seq<Event>)
    requires Fed(s, size, n) && n + 4 * m < size && s.dev.upload.written + 4 * m < PARAMS_SIZE && s.held == 0
    ensures Feasible(s, es) && Legal(s, es)
    ensures var t := Run(s, es);
      && Fed(t, size, n + 4 * m) && t.dev.upload.written == s.dev.upload.written + 4 * m && t.held == 0
      && t.base == s.base && t.now == s.now
    decreases m
  {
    hide After, Enabled, Allowed, Fed, ChunkPass, OutcomeOf;
    if m == 0 {
      es := [];
    } else {
      var chunk: seq<byte> := [1, 1, 1, 1];
      var e := Event.Pass(ChunkPass(s, chunk));
      ChunkStep(s, size, n, chunk);
      Single(s, e);
      var rest := ChunkRun(After(s, e), size, n + 4, m - 1);
      Joined(s, [e], rest);
      es := [e] + rest;
    }
  }

  lemma CommitStep(s: System, size: nat)
    requires Fed(s, size, size)
    ensures Enabled(s, Event.Pass(Input(s.now, None, s.now)))
    ensures OutcomeOf(s, Input(s.now, None, s.now)).action == Commit
  {
    hide Iterate;
    UploadPauses(s.dev, s.flash, Input(s.now, None, s.now));
  }

  // ----- the situations -----

  /** CommitFaithfulIff, short images: an image of one byte is committed, and bootable. */
  lemma ShortImageCommits(s0: System) returns (es: seq<Event>, x: Input)
    requires Initial(s0)
    ensures Legal(s0, es) && Commits(s0, es, x)
    ensures var s := Run(s0, es);
      && s.dev.upload.written == |s.payload| && s.dev.updateSize <= PARAMS_SIZE
      && Bootable(After(s, Event.Pass(x)).flash) && App(After(s, Event.Pass(x)).flash) != Intended(s.payload)
  {
    hide After, Enabled, Allowed, Shaken, Fed, ChunkPass, OutcomeOf, Intended, WordFits;
    FreshShaken(s0, 1);
    var shake := ShakeRun(s0, 0, 1);
    var s1 := Run(s0, shake);
    var e := Event.Pass(ChunkPass(s1, [1]));
    ChunkStep(s1, 1, 0, [1]);
    Single(s1, e);
    Joined(s0, shake, [e]);
    es := shake + [e];
    var s := Run(s0, es);
    FedMeans(s, 1, 1);
    x := Input(s.now, None, s.now);
    CommitStep(s, 1);
    CommitFaithfulIff(s0, es, x);
  }

  lemma FedMeans(s: System, size: nat, n: nat)
    requires Fed(s, size, n)
    ensures s.dev.status == ReceiveUpdate && s.dev.updateSize == size && |s.payload| == n
  {
  }

  /** The state with 0x3FFC bytes accepted of an image of 0x4004. */
  lemma BeforeTheTable(s0: System) returns (es: seq<Event>)
    requires Initial(s0)
    ensures Feasible(s0, es) && Legal(s0, es)
    ensures var s := Run(s0, es);
      Fed(s, PARAMS_SIZE + 4, PARAMS_SIZE - 4) && s.dev.upload.written == PARAMS_SIZE - 4 && s.held == 0
  {
    hide After, Enabled, Allowed, Shaken, Fed, OutcomeOf;
    FreshShaken(s0, PARAMS_SIZE + 4);
    var shake := ShakeRun(s0, 0, PARAMS_SIZE + 4);
    var s1 := Run(s0, shake);
    var feed := ChunkRun(s1, PARAMS_SIZE + 4, 0, PARAMS_SIZE / 4 - 1);
    Joined(s0, shake, feed);
    es := shake + feed;
  }

  /** EarlyBootIff: after a disciplined run a chunk straddles the beginning of the vector table, and a reset
      right after it starts the partial image. */
  lemma StraddlingChunkBoots(s0: System, bootAt: nat) returns (es: seq<Event>, x: Input)
    requires Initial(s0)
    ensures Legal(s0, es) && Enabled(Run(s0, es), Event.Pass(x))
    ensures var s := Run(s0, es);
      && OutcomeOf(s, x).action.Write? && !Aligned(s.dev.upload.written, OutcomeOf(s, x).action.len)
      && (exists k :: 0 <= k <= OutcomeOf(s, x).action.len && Bootable(After(s, PowerCut(x, k, bootAt)).flash))
  {
    hide After, Enabled, Allowed, Fed, ChunkPass, OutcomeOf, Bootable;
    es := BeforeTheTable(s0);
    var s := Run(s0, es);
    var chunk := Straddle();
    x := ChunkPass(s, chunk);
    ChunkStep(s, PARAMS_SIZE + 4, PARAMS_SIZE - 4, chunk);
    var data := OutcomeOf(s, x).action.chunk;
    assert data == x.packet.value[2..] && |data| >= 8 && data[..8] == chunk;
    StraddleWord(s.dev.upload, data);
    EarlyBootIff(s0, es, x, bootAt);
  }

  /** CutBootableIff: a straddling chunk whose bytes in the word are blank exposes nothing, and the next chunk
      does; a reset after the first byte of that one starts the partial image. */
  lemma BlankStraddleBoots(s0: System, bootAt: nat) returns (es: seq<Event>, x: Input, x': Input)
    requires Initial(s0)
    ensures Legal(s0, es) && Enabled(Run(s0, es), Event.Pass(x))
    ensures var s := Run(s0, es);
      var t := After(s, Event.Pass(x));
      && OutcomeOf(s, x).action.Write?
      && EarlyWord(s.dev.upload, OutcomeOf(s, x).action.chunk, OutcomeOf(s, x).action.len) == BLANK_WORD
      && OutcomeOf(t, x').action.Write? && Enabled(t, PowerCut(x', 1, bootAt))
      && Bootable(After(t, PowerCut(x', 1, bootAt)).flash)
  {
    hide After, Enabled, Allowed, Fed, ChunkPass, OutcomeOf, Bootable, Exposed, Legal;
    es := BeforeTheTable(s0);
    var s := Run(s0, es);
    var chunk, next: seq<byte> := [1, 1, 1, 1, 0xFF], [1, 1, 1];
    x := ChunkPass(s, chunk);
    ChunkStep(s, PARAMS_SIZE + 4, PARAMS_SIZE - 4, chunk);
    var data := OutcomeOf(s, x).action.chunk;
    BlankWord(s.dev.upload, data, chunk);
    Single(s, Event.Pass(x));
    Joined(s0, es, [Event.Pass(x)]);
    var t := After(s, Event.Pass(x));
    x' := ChunkPass(t, next);
    ChunkStep(t, PARAMS_SIZE + 4, PARAMS_SIZE + 1, next);
    var data' := OutcomeOf(t, x').action.chunk;
    FedMeans(s, PARAMS_SIZE + 4, PARAMS_SIZE - 4);
    assert t.payload == s.payload + chunk;
    LaidFromStart(t);
    CutBootableIff(s0, es + [Event.Pass(x)], x', 1, bootAt);
    ExposedByte(s.payload, chunk, data', next);
  }

  lemma BlankWord(u: Upload, data: seq<byte>, chunk: seq<byte>)
    requires u.written == PARAMS_SIZE - 4 && chunk == [1, 1, 1, 1, 0xFF] && |data| >= 5 && data[..5] == chunk
    ensures EarlyWord(u, data, 5) == BLANK_WORD
  {
    assert data[4] == chunk[4];
  }

  lemma ExposedByte(payload: seq<byte>, chunk: seq<byte>, data: seq<byte>, next: seq<byte>)
    requires |payload| == PARAMS_SIZE - 4 && chunk == [1, 1, 1, 1, 0xFF]
    requires next == [1, 1, 1] && |data| >= 3 && data[..3] == next
    ensures Looks(Exposed(payload + chunk + data[..1], 0))
  {
    var word := Exposed(payload + chunk + data[..1], 0);
    assert data[0] == next[0];
    assert word[0] == 0xFF && word[1] == 1;
    assert word[1] != BLANK_WORD[1] && word[1] != ZERO_WORD[1];
  }

  function Straddle(): (c: seq<byte>)
    ensures |c| == 8 && forall i :: 0 <= i < 8 ==> c[i] == 1
  {
    [1, 1, 1, 1, 1, 1, 1, 1]
  }

  lemma StraddleWord(u: Upload, chunk: seq<byte>)
    requires u.written == PARAMS_SIZE - 4 && |chunk| >= 8 && chunk[..8] == Straddle()
    ensures EarlyWord(u, chunk, 8) != BLANK_WORD && !Aligned(u.written, 8)
  {
    assert EarlyWord(u, chunk, 8)[0] == chunk[..8][4];
  }

  /** StraddledCommitIff: the image is then committed, and it is not what was accepted. */
  lemma StraddledImageCommits(s0: System) returns (es: seq<Event>, x: Input)
    requires Initial(s0)
    ensures Commits(s0, es, x)
    ensures var s := Run(s0, es);
      && s.dev.upload.written == |s.payload| && s.dev.updateSize > PARAMS_SIZE && s.held == 0
      && App(After(s, Event.Pass(x)).flash) != Intended(s.payload) && Bootable(After(s, Event.Pass(x)).flash)
  {
    hide After, Enabled, Allowed, Fed, ChunkPass, OutcomeOf, Bootable, Intended;
    var feed := BeforeTheTable(s0);
    var s1 := Run(s0, feed);
    var chunk := Straddle();
    var e := Event.Pass(ChunkPass(s1, chunk));
    ChunkStep(s1, PARAMS_SIZE + 4, PARAMS_SIZE - 4, chunk);
    Single(s1, e);
    Joined(s0, feed, [e]);
    es := feed + [e];
    var s := Run(s0, es);
    FedMeans(s1, PARAMS_SIZE + 4, PARAMS_SIZE - 4);
    FedMeans(s, PARAMS_SIZE + 4, PARAMS_SIZE + 4);
    x := Input(s.now, None, s.now);
    CommitStep(s, PARAMS_SIZE + 4);
    StraddledCommitIff(s0, es, x);
    IntendedTail(s1.payload, chunk);
  }

  lemma IntendedTail(payload: seq<byte>, chunk: seq<byte>)
    requires |payload| == PARAMS_SIZE - 4 && chunk == Straddle()
    ensures forall j :: 0 <= j < 4 ==> Intended(payload + chunk)[j] == 1
  {
  }

  /** SecondUploadIff: an upload given up after one byte, and another one of one byte after it, in the same
      boot: the second is committed, and the partition is not its image. */
  lemma SecondUploadCommits(s0: System) returns (es: seq<Event>, x: Input)
    requires Initial(s0)
    ensures Commits(s0, es, x)
    ensures var s := Run(s0, es);
      && |s.payload| == 1 && s.payload[0] != BLANK && s.dev.upload.written == 2
      && After(s, Event.Pass(x)).flash[PARAMS_OFFSET..] != s.payload + Blanks(FLASH_SIZE - PARAMS_OFFSET - 1)
  {
    hide After, Enabled, Allowed, Shaken, Fed, ChunkPass, OutcomeOf, Inv, WordFits;
    FreshShaken(s0, 2);
    var shake := ShakeRun(s0, 0, 2);
    var s1 := Run(s0, shake);
    var first := Event.Pass(ChunkPass(s1, [1]));
    ChunkStep(s1, 2, 0, [1]);
    Single(s1, first);
    Joined(s0, shake, [first]);
    var s2 := Run(s0, shake + [first]);
    Reached(s0, shake + [first]);
    var give := GivesUp(s2, s0.flash[..BL_SIZE], 2, 1, 1);
    Joined(s0, shake + [first], give);
    var s3 := Run(s2, give);
    var again := ShakeRun(s3, 0, 1);
    Joined(s0, shake + [first] + give, again);
    var s4 := Run(s3, again);
    var second := Event.Pass(ChunkPass(s4, [1]));
    ChunkStep(s4, 1, 0, [1]);
    Single(s4, second);
    Joined(s0, shake + [first] + give + again, [second]);
    es := shake + [first] + give + again + [second];
    var s := Run(s0, es);
    FedMeans(s, 1, 1);
    x := Input(s.now, None, s.now);
    CommitStep(s, 1);
    assert s.payload == [1];
    NotBlank(s);
    SecondUploadIff(s0, es, x);
  }

  lemma NotBlank(s: System)
    requires s.payload == [1]
    ensures s.payload != Blanks(|s.payload|)
  {
    assert s.payload[0] != Blanks(1)[0];
  }

  /** An upload that times out before the vector table, and a packet that starts the next handshake. */
  lemma GivesUp(s: System, rom: seq<byte>, size: nat, n: nat, next: nat) returns (es: seq<Event>)
    requires Fed(s, size, n) && Inv(s, rom) && n < PARAMS_SIZE
    ensures Feasible(s, es)
    ensures var t := Run(s, es); Shaken(t, 0, next) && t.dev.upload == s.dev.upload
  {
    hide After, Enabled, Shaken, Fed, Inv, Iterate;
    var late := s.dev.timeout.targetTime;
    var e1 := Event.Pass(Input(late, None, late));
    TimesOut(s, rom, size, n);
    var t := After(s, e1);
    var e2 := Event.Pass(Input(late, Some(Padded([])), late));
    Wakes(t, late, next);
    Single(s, e1);
    Single(t, e2);
    Joined(s, [e1], [e2]);
    es := [e1] + [e2];
  }

  lemma TimesOut(s: System, rom: seq<byte>, size: nat, n: nat)
    requires Fed(s, size, n) && Inv(s, rom) && n < PARAMS_SIZE
    ensures var late := s.dev.timeout.targetTime;
      var x := Input(late, None, late);
      var t := After(s, Event.Pass(x));
      && Enabled(s, Event.Pass(x)) && t.dev.status == InfiniteLoop && t.now == late
      && t.dev.upload == s.dev.upload && t.dev.timeout.hasElapsed
  {
    hide Iterate, Streamed, HandshakeInv, FlashAfter;
    var late := s.dev.timeout.targetTime;
    var x := Input(late, None, late);
    LaidFromStart(s);
    StreamedEntry(s.flash, s.payload, s.held);
    ExpiredPass(s.dev, s.flash, x);
    PassShape(s.dev, s.flash, x);
    Elapses(s.dev, s.flash, x);
  }

  lemma Elapses(d: Device, f: Image, x: Input)
    requires d.status == ReceiveUpdate && Fires(d.timeout, x.pingAt) && !d.timeout.autoReset
    ensures Iterate(d, f, x).dev.timeout.hasElapsed
  {
    hide Bootable;
  }

  lemma Wakes(t: System, late: nat, next: nat)
    requires t.dev.status == InfiniteLoop && t.dev.timeout.hasElapsed && t.now == late
    ensures var x := Input(late, Some(Padded([])), late);
      var u := After(t, Event.Pass(x));
      Enabled(t, Event.Pass(x)) && Shaken(u, 0, next) && u.dev.upload == t.dev.upload
  {
    hide FlashAfter, AckedAfter, ArmedAfter;
  }
}
