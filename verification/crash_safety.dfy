/**
 Whole runs of the device: passes of the update loop, resets between any two flash commands, and the
 application running in between. The history fields of System record what the run did; the device never
 reads them.
 */
module CrashSafety {
  import opened Bytes
  import opened Memory
  import opened FlashIo
  import opened Protocol
  import opened Stimer
  import opened Update

  datatype System = System(
    dev: Device,
    flash: Image,
    /** Ticks of the last event. */
    now: nat,
    /** History: when the timeout was last started or reloaded. */
    armedAt: nat,
    /** History: tags of the handshake requests acknowledged since reset or the idle loop. */
    acked: seq<byte>,
    /** History: the firmware bytes accepted since the last accepted erase request. */
    payload: seq<byte>,
    /** History: how many bytes of the vector table's first word the upload has kept back. */
    held: nat,
    /** History: the application region as the last completed update left it. */
    base: seq<byte>)

  datatype Event =
    /** One pass of the loop. */
    | Pass(x: Input)
    /** A pass interrupted by a reset after k of its flash commands. */
    | PowerCut(x: Input, k: nat, bootAt: nat)
    /** The application runs, changes only the parameter sector, and resets. */
    | AppRun(ops: seq<FlashOp>, bootAt: nat)

  const APP_SIZE: nat := FLASH_SIZE - APP_OFFSET

  predicate IsHandshakeTag(tag: byte) {
    TAG_SYNC_REQ <= tag <= TAG_ERASE_REQ
  }

  /** The application region the accepted bytes ask for. */
  function Intended(payload: seq<byte>): (a: seq<byte>)
    ensures |a| == APP_SIZE
  {
    seq(APP_SIZE, i requires 0 <= i < APP_SIZE =>
      if PARAMS_SIZE + i < |payload| then payload[PARAMS_SIZE + i] else BLANK)
  }

  function OutcomeOf(s: System, x: Input): Outcome {
    Iterate(s.dev, s.flash, x)
  }

  function OpsOf(s: System, x: Input): seq<FlashOp> {
    Ops(s.dev.upload, OutcomeOf(s, x).action)
  }

  function PayloadAfter(payload: seq<byte>, a: Action): seq<byte>
    requires a.Write? ==> a.len <= |a.chunk|
  {
    match a
    case ErasePartition => []
    case Write(chunk, len) => payload + chunk[..len]
    case _ => payload
  }

  /** A chunk that starts on the vector table keeps back what it covers of the first word. */
  function HeldBytes(held: nat, u: Upload, len: nat): nat {
    if u.written != PARAMS_SIZE then held else if len < 4 then len else 4
  }

  function HeldAfter(held: nat, u: Upload, a: Action): nat {
    match a
    case ErasePartition => 0
    case Write(_, len) => HeldBytes(held, u, len)
    case _ => held
  }

  function AckedAfter(acked: seq<byte>, o: Outcome, packet: Option<Packet>): seq<byte> {
    if o.dev.status == InfiniteLoop then []
    else if packet.Some? && o.reply == Ack && IsHandshakeTag(packet.value[0]) then acked + [packet.value[0]]
    else acked
  }

  /** Starting over from the idle loop and every acknowledgement but that of a reset request re-arm it. */
  function ArmedAfter(s: System, o: Outcome, x: Input): nat {
    if x.packet.Some?
      && (s.dev.status == InfiniteLoop || (o.reply == Ack && Extract(x.packet.value, false).tag != TAG_RST))
    then x.actAt
    else s.armedAt
  }

  function After(s: System, e: Event): System {
    match e
    case Pass(x) =>
      var o := OutcomeOf(s, x);
      System(o.dev, FlashAfter(s.dev, s.flash, x), x.actAt, ArmedAfter(s, o, x), AckedAfter(s.acked, o, x.packet),
             PayloadAfter(s.payload, o.action), HeldAfter(s.held, s.dev.upload, o.action),
             if o.action == Commit then Intended(s.payload) else s.base)
    case PowerCut(x, k, bootAt) =>
      var ops := OpsOf(s, x);
      System(Boot(bootAt), ApplyAll(s.flash, if k <= |ops| then ops[..k] else ops), bootAt, bootAt, [], [], 0,
             if OutcomeOf(s, x).action == Commit && k > 0 then Intended(s.payload) else s.base)
    case AppRun(ops, bootAt) =>
      System(Boot(bootAt), ApplyAll(s.flash, ops), bootAt, bootAt, [], [], 0, s.base)
  }

  predicate InParamsSector(op: FlashOp) {
    match op
    case Erase(n) => n == PARAMS_SECTOR
    case Program(addr, data) => PARAMS_OFFSET <= addr && addr + |data| <= APP_OFFSET
  }

  predicate Enabled(s: System, e: Event) {
    match e
    case Pass(x) => s.dev.status != Done && s.now <= x.pingAt <= x.actAt
    case PowerCut(x, k, _) => s.dev.status != Done && s.now <= x.pingAt <= x.actAt && k <= |OpsOf(s, x)|
    case AppRun(ops, _) => s.dev.status == Done && forall i :: 0 <= i < |ops| ==> InParamsSector(ops[i])
  }

  /** A chunk that does not touch the vector table's first word, unless it starts on it. */
  predicate Aligned(written: nat, len: nat) {
    || written + len <= PARAMS_SIZE
    || written == PARAMS_SIZE
    || written >= PARAMS_SIZE + 4
    || len == 0
  }

  /** What the results below ask of an upload: at most one per boot, chunks aligned with the vector table,
      and an image that reaches past its first word. */
  predicate Disciplined(s: System, x: Input) {
    match OutcomeOf(s, x).action
    case Nothing => true
    case ErasePartition => s.dev.upload.written == 0
    case Write(_, len) => Aligned(s.dev.upload.written, len)
    case Commit => s.dev.updateSize >= PARAMS_SIZE + 4
  }

  predicate Allowed(s: System, e: Event) {
    Enabled(s, e) && (e.Pass? || e.PowerCut? ==> Disciplined(s, e.x))
  }

  function Run(s: System, es: seq<Event>): System
    decreases |es|
  {
    if es == [] then s else Run(After(s, es[0]), es[1..])
  }

  predicate Legal(s: System, es: seq<Event>)
    decreases |es|
  {
    es == [] || (Allowed(s, es[0]) && Legal(After(s, es[0]), es[1..]))
  }

  /** Every run there is. */
  predicate Feasible(s: System, es: seq<Event>)
    decreases |es|
  {
    es == [] || (Enabled(s, es[0]) && Feasible(After(s, es[0]), es[1..]))
  }

  /** The partition is erased before anything was written to it since reset. */
  predicate FirstUpload(s: System, e: Event) {
    (e.Pass? || e.PowerCut?) && OutcomeOf(s, e.x).action == ErasePartition ==> s.dev.upload.written == 0
  }

  /** Runs with at most one upload per boot. */
  predicate SingleUploads(s: System, es: seq<Event>)
    decreases |es|
  {
    es == [] || (Enabled(s, es[0]) && FirstUpload(s, es[0]) && SingleUploads(After(s, es[0]), es[1..]))
  }

  lemma {:induction false} LegalRuns(s: System, es: seq<Event>)
    ensures Legal(s, es) ==> SingleUploads(s, es)
    ensures SingleUploads(s, es) ==> Feasible(s, es)
    decreases |es|
  {
    hide Iterate, After;
    if es != [] {
      LegalRuns(After(s, es[0]), es[1..]);
    }
  }

  /** Power-on with any flash contents. */
  predicate Initial(s: System) {
    && s.dev == Boot(s.now) && s.armedAt == s.now && s.acked == [] && s.payload == [] && s.held == 0
    && s.base == App(s.flash)
  }

  // ----- what one pass can do -----

  /** The session counter as the pass sees it: restarted by the first pass after the erase. */
  function Counter(d: Device): nat {
    if d.last == EraseOldFw then 0 else d.written
  }

  function LastSeen(d: Device): Status {
    if d.last == EraseOldFw then ReceiveUpdate else d.last
  }

  lemma PassShape(d: Device, f: Image, x: Input)
    ensures var o := Iterate(d, f, x);
      && (o.action != Nothing ==> !Fires(d.timeout, x.pingAt))
      && (o.action == Nothing ==> o.dev.upload == d.upload)
      && (o.action == Nothing && o.dev.status == ReceiveUpdate ==>
            d.status == ReceiveUpdate && o.dev.last == LastSeen(d) && o.dev.written == Counter(d)
            && o.dev.updateSize == d.updateSize)
      && (o.action == ErasePartition ==>
            d.status == EraseOldFw && o.dev.status == ReceiveUpdate && o.dev.last == EraseOldFw
            && o.dev.updateSize == d.updateSize && o.dev.upload == d.upload)
      && (o.action.Write? ==>
            d.status == ReceiveUpdate && o.dev.status == ReceiveUpdate && o.dev.last == LastSeen(d)
            && Counter(d) < d.updateSize && o.dev.written == Counter(d) + o.action.len
            && o.dev.updateSize == d.updateSize
            && o.dev.upload == AfterWrite(d.upload, o.action.chunk, o.action.len))
      && (o.action == Commit ==>
            d.status == ReceiveUpdate && o.dev.status == LastCheck && Counter(d) == d.updateSize
            && o.dev.upload == d.upload)
      && (o.dev.status == Done ==> o.action == Nothing && (d.status == Done || Bootable(f)))
  {
    hide Extract, CheckUpdateSize, DeviceId, Bootable, Start, Reload, Ping, AfterWrite;
  }

  // ----- the flash -----

  /** From PARAMS_OFFSET on the flash holds the payload, but for the bytes kept back, then blanks. */
  ghost predicate Streamed(f: Image, payload: seq<byte>, held: nat) {
    forall i :: PARAMS_OFFSET <= i < FLASH_SIZE ==>
      f[i] == if i - PARAMS_OFFSET < |payload| && !(APP_OFFSET <= i < APP_OFFSET + held)
              then payload[i - PARAMS_OFFSET] else BLANK
  }

  /** No more is kept back than the payload has of the first word. */
  predicate HeldWithin(payload: seq<byte>, held: nat) {
    held <= 4 && (held > 0 ==> PARAMS_SIZE + held <= |payload|)
  }

  /** All that the payload has of the first word is kept back. */
  predicate HeldWhole(n: nat, held: nat) {
    held == if n <= PARAMS_SIZE then 0 else if n < PARAMS_SIZE + 4 then n - PARAMS_SIZE else 4
  }

  /** Where in the partition the upload began: after what was written since reset before its erase. */
  function Offset(s: System): nat {
    if |s.payload| <= s.dev.upload.written then s.dev.upload.written - |s.payload| else 0
  }

  /** What the upload amounts to from the start of the partition on. */
  function Laid(s: System): (p: seq<byte>)
    ensures |p| == Offset(s) + |s.payload|
  {
    Blanks(Offset(s)) + s.payload
  }

  lemma LaidFromStart(s: System)
    requires s.dev.upload.written == |s.payload|
    ensures Offset(s) == 0 && Laid(s) == s.payload
  {
  }

  /** What an upload has left in the flash and in the withheld word. */
  ghost predicate Streaming(s: System) {
    var p, entry := Laid(s), s.dev.upload.entry;
    && Streamed(s.flash, p, s.held) && HeldWithin(p, s.held)
    && (s.held > 0 ==> p[PARAMS_SIZE..PARAMS_SIZE + s.held] <= entry)
    && (Offset(s) < PARAMS_SIZE && s.held == 0 && (|p| > PARAMS_SIZE || |s.payload| == s.dev.updateSize) ==>
          entry == INITIAL_ENTRY)
  }

  ghost predicate Session(s: System) {
    var d, n := s.dev, |s.payload|;
    && Counter(d) == n && (d.last == EraseOldFw || d.last == ReceiveUpdate)
    && 0 < d.updateSize <= FW_CAPACITY && n < d.updateSize + 0xFF
    && n <= d.upload.written
    && Streaming(s)
  }

  ghost predicate FlashInv(s: System, rom: seq<byte>) {
    && |rom| == BL_SIZE && s.flash[..BL_SIZE] == rom
    && |s.dev.upload.entry| == 4
    && (s.dev.upload.written < PARAMS_SIZE ==> s.dev.upload.entry == INITIAL_ENTRY)
    && (s.dev.status == EraseOldFw ==> 0 < s.dev.updateSize <= FW_CAPACITY)
    && (s.dev.status == ReceiveUpdate ==> Session(s))
    && (s.dev.status == Done ==> Bootable(s.flash))
  }

  /** With at most one upload per boot, the upload begins at the start of the partition. */
  predicate FromStart(s: System) {
    s.dev.status == ReceiveUpdate ==> s.dev.upload.written == |s.payload|
  }

  /** What disciplined runs add. */
  ghost predicate BaseInv(s: System) {
    && |s.base| == APP_SIZE
    && (App(s.flash) == s.base || Entry(s.flash) == BLANK_WORD)
    && (s.dev.status == Done ==> App(s.flash) == s.base)
    && FromStart(s)
    && (s.dev.status == ReceiveUpdate ==> HeldWhole(|s.payload|, s.held))
  }

  lemma EntryOfApp(f: Image, g: Image)
    requires App(f) == App(g)
    ensures Entry(f) == Entry(g)
  {
    assert Entry(f) == App(f)[..4] && Entry(g) == App(g)[..4];
  }

  /** Sector 2, the second to be erased, holds the entry word. */
  lemma EraseCut(f: Image, k: nat)
    requires k <= |PARTITION_ERASE|
    ensures var g := ApplyAll(f, PARTITION_ERASE[..k]);
      && g[..BL_SIZE] == f[..BL_SIZE]
      && (k <= 1 ==> App(g) == App(f))
      && (k >= 2 ==> Entry(g) == BLANK_WORD)
      && (k == |PARTITION_ERASE| ==> Streamed(g, [], 0))
  {
    EraseOpsPrefix(f, PARAMS_SECTOR, SECTORS - PARAMS_SECTOR, k);
  }

  /** What the first word of the vector table holds during an upload. */
  function Exposed(payload: seq<byte>, held: nat): (w: seq<byte>)
    ensures |w| == 4
  {
    seq(4, j requires 0 <= j < 4 =>
      if held <= j && PARAMS_SIZE + j < |payload| then payload[PARAMS_SIZE + j] else BLANK)
  }

  lemma StreamedEntry(f: Image, payload: seq<byte>, held: nat)
    requires Streamed(f, payload, held)
    ensures Entry(f) == Exposed(payload, held)
    ensures HeldWhole(|payload|, held) ==> Entry(f) == BLANK_WORD
  {
  }

  /** A chunk, or as much of it as was programmed before a reset. */
  lemma WriteCut(f: Image, payload: seq<byte>, held: nat, u: Upload, chunk: seq<byte>, len: nat, k: nat)
    requires Streamed(f, payload, held) && HeldWithin(payload, held) && u.written == |payload|
    requires 4 <= |chunk| && len <= |chunk|
    requires k <= len
    ensures var g := ApplyAll(f, WriteOps(u, chunk, len)[..k]);
      && g[..BL_SIZE] == f[..BL_SIZE]
      && Streamed(g, payload + chunk[..k], HeldBytes(held, u, k))
      && HeldWithin(payload + chunk[..k], HeldBytes(held, u, k))
  {
    hide Overlay, Withheld;
    var data := Withheld(u, chunk)[..len];
    var at := PARAMS_OFFSET + u.written;
    BytewisePrefix(f, at, data, k);
    var g := Overlay(f, at, data[..k]);
    var held' := HeldBytes(held, u, k);
    forall i | PARAMS_OFFSET <= i < FLASH_SIZE
      ensures g[i] == if i - PARAMS_OFFSET < |payload| + k && !(APP_OFFSET <= i < APP_OFFSET + held')
                      then (payload + chunk[..k])[i - PARAMS_OFFSET] else BLANK
    {
      OverlayBlankCell(f, at, data[..k], i);
      if at <= i < at + k {
        WithheldCell(u, chunk, len, i - at);
      }
    }
    OverlayBelow(f, at, data[..k]);
  }

  lemma OverlayBlankCell(f: Image, addr: nat, data: seq<byte>, i: nat)
    requires i < FLASH_SIZE
    ensures !(addr <= i < addr + |data|) ==> Overlay(f, addr, data)[i] == f[i]
    ensures addr <= i < addr + |data| && f[i] == BLANK ==> Overlay(f, addr, data)[i] == data[i - addr]
  {
    hide Burn;
    if addr <= i < addr + |data| {
      BurnBlank(data[i - addr]);
    }
  }

  lemma OverlayBelow(f: Image, addr: nat, data: seq<byte>)
    requires addr >= BL_SIZE
    ensures Overlay(f, addr, data)[..BL_SIZE] == f[..BL_SIZE]
  {
    hide Burn;
  }

  /** What is programmed into the cell of the j-th byte of a chunk. */
  lemma WithheldCell(u: Upload, chunk: seq<byte>, len: nat, j: nat)
    requires 4 <= |chunk| && j < len <= |chunk|
    ensures Withheld(u, chunk)[..len][j] == if u.written == PARAMS_SIZE && j < 4 then BLANK else chunk[j]
  {
  }

  /** A chunk is programmed from the write offset on. */
  lemma WriteAbove(f: Image, u: Upload, chunk: seq<byte>, len: nat, k: nat)
    requires 4 <= |chunk| && len <= |chunk| && k <= len
    ensures var g := ApplyAll(f, WriteOps(u, chunk, len)[..k]);
      g[..BL_SIZE] == f[..BL_SIZE]
  {
    hide Withheld, Burn;
    BytewisePrefix(f, PARAMS_OFFSET + u.written, Withheld(u, chunk)[..len], k);
  }

  /** Programming the withheld word turns each byte of the image that was not kept back into what it shares
      with the byte kept instead. */
  predicate WordFits(payload: seq<byte>, held: nat, entry: seq<byte>)
    requires |entry| == 4
  {
    forall j :: held <= j < 4 ==> Burn(Intended(payload)[j], entry[j]) == Intended(payload)[j]
  }

  lemma CommitCell(f: Image, payload: seq<byte>, held: nat, entry: seq<byte>, i: nat)
    requires Streamed(f, payload, held) && HeldWithin(payload, held) && |entry| == 4
    requires held > 0 ==> payload[PARAMS_SIZE..PARAMS_SIZE + held] <= entry
    requires PARAMS_OFFSET <= i < FLASH_SIZE
    ensures var image := if i - PARAMS_OFFSET < |payload| then payload[i - PARAMS_OFFSET] else BLANK;
      Overlay(f, APP_OFFSET, entry)[i]
      == if APP_OFFSET + held <= i < APP_OFFSET + 4 then Burn(image, entry[i - APP_OFFSET]) else image
  {
    hide Burn;
    if APP_OFFSET <= i < APP_OFFSET + held {
      BurnBlank(entry[i - APP_OFFSET]);
      assert entry[i - APP_OFFSET] == payload[PARAMS_SIZE..PARAMS_SIZE + held][i - APP_OFFSET];
    }
  }

  /** The withheld word completes the image if and only if it fits what is already there. */
  lemma CommitImage(f: Image, payload: seq<byte>, held: nat, entry: seq<byte>)
    requires Streamed(f, payload, held) && HeldWithin(payload, held) && |entry| == 4
    requires held > 0 ==> payload[PARAMS_SIZE..PARAMS_SIZE + held] <= entry
    requires |payload| <= FLASH_SIZE - PARAMS_OFFSET
    ensures var g := ApplyAll(f, [Program(APP_OFFSET, entry)]);
      var image := payload + Blanks(FLASH_SIZE - PARAMS_OFFSET - |payload|);
      && g[..BL_SIZE] == f[..BL_SIZE]
      && (App(g) == Intended(payload) <==> WordFits(payload, held, entry))
      && (g[PARAMS_OFFSET..] == image <==> WordFits(payload, held, entry))
  {
    hide Overlay, Streamed, WordFits, Intended;
    ApplyOne(f, Program(APP_OFFSET, entry));
    var g := Overlay(f, APP_OFFSET, entry);
    var image := payload + Blanks(FLASH_SIZE - PARAMS_OFFSET - |payload|);
    ProgramAbove(f, entry);
    if WordFits(payload, held, entry) {
      FitsImage(f, payload, held, entry, image);
    }
    if g[PARAMS_OFFSET..] == image {
      AppOfImage(g, payload);
    }
    if App(g) == Intended(payload) {
      AppFits(f, payload, held, entry);
    }
  }

  lemma ProgramAbove(f: Image, entry: seq<byte>)
    ensures Overlay(f, APP_OFFSET, entry)[..BL_SIZE] == f[..BL_SIZE]
  {
    hide Burn;
  }

  lemma FitsImage(f: Image, payload: seq<byte>, held: nat, entry: seq<byte>, image: seq<byte>)
    requires Streamed(f, payload, held) && HeldWithin(payload, held) && |entry| == 4
    requires held > 0 ==> payload[PARAMS_SIZE..PARAMS_SIZE + held] <= entry
    requires |payload| <= FLASH_SIZE - PARAMS_OFFSET
    requires image == payload + Blanks(FLASH_SIZE - PARAMS_OFFSET - |payload|)
    requires WordFits(payload, held, entry)
    ensures Overlay(f, APP_OFFSET, entry)[PARAMS_OFFSET..] == image
  {
    hide Burn, Overlay, Streamed;
    var g := Overlay(f, APP_OFFSET, entry);
    forall k | 0 <= k < |image| ensures g[PARAMS_OFFSET..][k] == image[k] {
      CommitCell(f, payload, held, entry, PARAMS_OFFSET + k);
      if PARAMS_SIZE + held <= k < PARAMS_SIZE + 4 {
        var j := k - PARAMS_SIZE;
        assert Burn(Intended(payload)[j], entry[j]) == Intended(payload)[j];
      }
    }
  }

  lemma AppOfImage(g: Image, payload: seq<byte>)
    requires |payload| <= FLASH_SIZE - PARAMS_OFFSET
    requires g[PARAMS_OFFSET..] == payload + Blanks(FLASH_SIZE - PARAMS_OFFSET - |payload|)
    ensures App(g) == Intended(payload)
  {
    forall i | 0 <= i < APP_SIZE ensures App(g)[i] == Intended(payload)[i] {
      assert App(g)[i] == g[PARAMS_OFFSET..][PARAMS_SIZE + i];
    }
  }

  lemma AppFits(f: Image, payload: seq<byte>, held: nat, entry: seq<byte>)
    requires Streamed(f, payload, held) && HeldWithin(payload, held) && |entry| == 4
    requires held > 0 ==> payload[PARAMS_SIZE..PARAMS_SIZE + held] <= entry
    requires App(Overlay(f, APP_OFFSET, entry)) == Intended(payload)
    ensures WordFits(payload, held, entry)
  {
    hide Burn, Overlay, Streamed;
    var g, word := Overlay(f, APP_OFFSET, entry), Intended(payload);
    forall j | held <= j < 4 ensures Burn(word[j], entry[j]) == word[j] {
      CommitCell(f, payload, held, entry, APP_OFFSET + j);
      assert App(g)[j] == g[APP_OFFSET + j];
    }
  }

  /** A word kept back as a whole always fits. */
  lemma WholeWordFits(payload: seq<byte>, held: nat, entry: seq<byte>)
    requires |payload| >= PARAMS_SIZE + 4 && HeldWhole(|payload|, held) && |entry| == 4
    ensures WordFits(payload, held, entry)
  {
  }

  lemma {:induction false} AppRunCut(f: Image, ops: seq<FlashOp>)
    requires forall i :: 0 <= i < |ops| ==> InParamsSector(ops[i])
    ensures var g := ApplyAll(f, ops);
      g[..BL_SIZE] == f[..BL_SIZE] && App(g) == App(f)
  {
    if ops != [] {
      var k := |ops| - 1;
      AppRunCut(f, ops[..k]);
      var g := ApplyAll(f, ops[..k]);
      assert InParamsSector(ops[k]);
      forall i | 0 <= i < FLASH_SIZE && !(BL_SIZE <= i < APP_OFFSET) ensures Apply(g, ops[k])[i] == g[i] {
        hide Burn;
      }
      var h := Apply(g, ops[k]);
      assert h[..BL_SIZE] == g[..BL_SIZE] && App(h) == App(g);
    }
  }

  // ----- what every event keeps -----

  lemma SizeChecked(d: Device, f: Image, x: Input)
    requires d.status == EraseOldFw ==> 0 < d.updateSize <= FW_CAPACITY
    ensures var o := Iterate(d, f, x);
      o.dev.status == EraseOldFw ==> 0 < o.dev.updateSize <= FW_CAPACITY
  {
    hide Extract, DeviceId, Bootable, Start, Reload, Ping, AfterWrite;
  }

  lemma StreamedMore(s: System, chunk: seq<byte>, len: nat, t: System)
    requires |s.dev.upload.entry| == 4 && Streaming(s)
    requires |s.payload| <= s.dev.upload.written && |s.payload| < s.dev.updateSize
    requires s.dev.upload.written < PARAMS_SIZE ==> s.dev.upload.entry == INITIAL_ENTRY
    requires 4 <= |chunk| && len <= |chunk|
    requires t.dev.upload == AfterWrite(s.dev.upload, chunk, len) && t.dev.updateSize == s.dev.updateSize
    requires t.payload == s.payload + chunk[..len] && t.held == HeldBytes(s.held, s.dev.upload, len)
    requires t.flash == ApplyAll(s.flash, WriteOps(s.dev.upload, chunk, len))
    ensures Streaming(t)
  {
    hide ApplyAll, Withheld, Streamed;
    var ops, p := WriteOps(s.dev.upload, chunk, len), Laid(s);
    assert ops[..len] == ops;
    assert Laid(t) == p + chunk[..len];
    WriteCut(s.flash, p, s.held, s.dev.upload, chunk, len, len);
    var h := t.held;
    if h > 0 {
      PayloadWord(p, chunk[..len], PARAMS_SIZE, h);
      if |p| == PARAMS_SIZE {
        assert h <= 4 && t.dev.upload.entry == chunk[..4];
        assert chunk[..len][..h] == chunk[..4][..h];
      }
    }
  }

  lemma PayloadWord(a: seq<byte>, b: seq<byte>, at: nat, h: nat)
    ensures at + h <= |a| ==> (a + b)[at..at + h] == a[at..at + h]
    ensures |a| == at && h <= |b| ==> (a + b)[at..at + h] == b[..h]
  {
  }

  lemma WriteStreams(s: System, rom: seq<byte>, chunk: seq<byte>, len: nat, t: System)
    requires FlashInv(s, rom) && s.dev.status == ReceiveUpdate && Counter(s.dev) < s.dev.updateSize
    requires 4 <= |chunk| && len < 0x100 && len <= |chunk|
    requires t.dev.upload == AfterWrite(s.dev.upload, chunk, len) && t.dev.written == Counter(s.dev) + len
    requires t.dev.last == ReceiveUpdate && t.dev.updateSize == s.dev.updateSize
    requires t.payload == s.payload + chunk[..len] && t.held == HeldBytes(s.held, s.dev.upload, len)
    requires t.flash == ApplyAll(s.flash, WriteOps(s.dev.upload, chunk, len))
    ensures Session(t) && t.flash[..BL_SIZE] == rom
  {
    hide ApplyAll, Withheld, Streaming;
    var ops := WriteOps(s.dev.upload, chunk, len);
    assert ops[..len] == ops;
    WriteAbove(s.flash, s.dev.upload, chunk, len, len);
    StreamedMore(s, chunk, len, t);
  }

  lemma PassKeepsFlash(s: System, rom: seq<byte>, x: Input)
    requires FlashInv(s, rom) && Enabled(s, Pass(x))
    ensures FlashInv(After(s, Pass(x)), rom)
  {
    hide Iterate, ApplyAll, Streamed, Intended, PARTITION_ERASE, Withheld, WriteOps, AckedAfter, ArmedAfter;
    var o, t := OutcomeOf(s, x), After(s, Pass(x));
    PassShape(s.dev, s.flash, x);
    SizeChecked(s.dev, s.flash, x);
    match o.action
    case Nothing =>
      NoOps(s.dev.upload);
    case ErasePartition =>
      assert PARTITION_ERASE[..|PARTITION_ERASE|] == PARTITION_ERASE;
      EraseCut(s.flash, |PARTITION_ERASE|);
      NothingLaid(t);
    case Write(chunk, len) =>
      WriteStreams(s, rom, chunk, len, t);
    case Commit =>
      ApplyOne(s.flash, Program(APP_OFFSET, s.dev.upload.entry));
      ProgramAbove(s.flash, s.dev.upload.entry);
  }

  lemma NothingLaid(t: System)
    requires Streamed(t.flash, [], 0) && t.payload == []
    ensures Streamed(t.flash, Laid(t), 0)
  {
  }

  lemma PowerCutKeepsFlash(s: System, rom: seq<byte>, x: Input, k: nat, bootAt: nat)
    requires FlashInv(s, rom) && Enabled(s, PowerCut(x, k, bootAt))
    ensures FlashInv(After(s, PowerCut(x, k, bootAt)), rom)
  {
    hide Iterate, ApplyAll, Session, Intended, PARTITION_ERASE, Withheld, WriteOps;
    var o, ops := OutcomeOf(s, x), OpsOf(s, x);
    match o.action
    case Nothing =>
      NoOps(s.dev.upload);
      assert ops[..k] == [];
    case ErasePartition =>
      EraseCut(s.flash, k);
    case Write(chunk, len) =>
      WriteAbove(s.flash, s.dev.upload, chunk, len, k);
    case Commit =>
      NoOps(s.dev.upload);
      ApplyOne(s.flash, Program(APP_OFFSET, s.dev.upload.entry));
      ProgramAbove(s.flash, s.dev.upload.entry);
      assert ops[..0] == [] && ops[..1] == ops;
  }

  lemma AppRunKeepsFlash(s: System, rom: seq<byte>, ops: seq<FlashOp>, bootAt: nat)
    requires FlashInv(s, rom) && Enabled(s, AppRun(ops, bootAt))
    ensures FlashInv(After(s, AppRun(ops, bootAt)), rom)
    ensures BaseInv(s) ==> BaseInv(After(s, AppRun(ops, bootAt)))
  {
    hide ApplyAll, Session;
    AppRunCut(s.flash, ops);
    if App(After(s, AppRun(ops, bootAt)).flash) == App(s.flash) {
      EntryOfApp(s.flash, After(s, AppRun(ops, bootAt)).flash);
    }
  }

  lemma FromStartKept(s: System, rom: seq<byte>, e: Event)
    requires FlashInv(s, rom) && FromStart(s) && Enabled(s, e) && FirstUpload(s, e)
    ensures FromStart(After(s, e))
  {
    hide Iterate, ApplyAll, Session, Intended, FlashAfter, AckedAfter, ArmedAfter;
    if e.Pass? {
      PassShape(s.dev, s.flash, e.x);
    }
  }

  /** The first word stays blank while an aligned chunk is programmed. */
  lemma AlignedCut(s: System, rom: seq<byte>, chunk: seq<byte>, len: nat, k: nat)
    requires FlashInv(s, rom) && BaseInv(s) && s.dev.status == ReceiveUpdate && Counter(s.dev) < s.dev.updateSize
    requires 4 <= |chunk| && len < 0x100 && k <= len <= |chunk| && Aligned(s.dev.upload.written, len)
    ensures HeldWhole(|s.payload| + k, HeldBytes(s.held, s.dev.upload, k))
    ensures Entry(ApplyAll(s.flash, WriteOps(s.dev.upload, chunk, len)[..k])) == BLANK_WORD
  {
    hide ApplyAll, WriteOps, Streamed, Entry;
    LaidFromStart(s);
    WriteCut(s.flash, s.payload, s.held, s.dev.upload, chunk, len, k);
    StreamedEntry(ApplyAll(s.flash, WriteOps(s.dev.upload, chunk, len)[..k]), s.payload + chunk[..k],
                  HeldBytes(s.held, s.dev.upload, k));
  }

  /** A commit of a disciplined upload. */
  lemma CommitFits(s: System, rom: seq<byte>)
    requires FlashInv(s, rom) && BaseInv(s) && s.dev.status == ReceiveUpdate
    requires Counter(s.dev) == s.dev.updateSize >= PARAMS_SIZE + 4
    ensures var g := ApplyAll(s.flash, [Program(APP_OFFSET, s.dev.upload.entry)]);
      && App(g) == Intended(s.payload)
      && g[PARAMS_OFFSET..] == s.payload + Blanks(FLASH_SIZE - PARAMS_OFFSET - |s.payload|)
  {
    hide ApplyAll, Streamed, WordFits;
    LaidFromStart(s);
    CommitImage(s.flash, s.payload, s.held, s.dev.upload.entry);
    WholeWordFits(s.payload, s.held, s.dev.upload.entry);
  }

  lemma PassKeepsBase(s: System, rom: seq<byte>, x: Input)
    requires FlashInv(s, rom) && BaseInv(s) && Allowed(s, Pass(x))
    ensures BaseInv(After(s, Pass(x)))
  {
    hide Iterate, ApplyAll, Session, Intended, PARTITION_ERASE, Withheld, WriteOps, AckedAfter, ArmedAfter, Entry;
    var o, t := OutcomeOf(s, x), After(s, Pass(x));
    PassShape(s.dev, s.flash, x);
    if s.dev.status == ReceiveUpdate {
      SessionCounts(s, rom);
    }
    match o.action
    case Nothing =>
      NoOps(s.dev.upload);
    case ErasePartition =>
      assert PARTITION_ERASE[..|PARTITION_ERASE|] == PARTITION_ERASE;
      EraseCut(s.flash, |PARTITION_ERASE|);
      PartitionSize();
    case Write(chunk, len) =>
      var ops := WriteOps(s.dev.upload, chunk, len);
      WholeOps(s.dev.upload, chunk, len);
      AlignedCut(s, rom, chunk, len, len);
    case Commit =>
      CommitFits(s, rom);
  }

  lemma SessionCounts(s: System, rom: seq<byte>)
    requires FlashInv(s, rom) && s.dev.status == ReceiveUpdate
    ensures Counter(s.dev) == |s.payload| <= s.dev.upload.written && 0 < s.dev.updateSize <= FW_CAPACITY
  {
  }

  lemma WholeOps(u: Upload, chunk: seq<byte>, len: nat)
    requires 4 <= |chunk| && len <= |chunk|
    ensures WriteOps(u, chunk, len)[..len] == WriteOps(u, chunk, len)
  {
  }

  lemma PowerCutKeepsBase(s: System, rom: seq<byte>, x: Input, k: nat, bootAt: nat)
    requires FlashInv(s, rom) && BaseInv(s) && Allowed(s, PowerCut(x, k, bootAt))
    ensures BaseInv(After(s, PowerCut(x, k, bootAt)))
  {
    hide Iterate, ApplyAll, Session, Intended, PARTITION_ERASE, Withheld, WriteOps, Entry;
    var o, ops := OutcomeOf(s, x), OpsOf(s, x);
    var t := After(s, PowerCut(x, k, bootAt));
    PassShape(s.dev, s.flash, x);
    match o.action
    case Nothing =>
      NoOps(s.dev.upload);
      assert ops[..k] == [];
    case ErasePartition =>
      EraseCut(s.flash, k);
      if k <= 1 {
        EntryOfApp(s.flash, t.flash);
      }
    case Write(chunk, len) =>
      AlignedCut(s, rom, chunk, len, k);
    case Commit =>
      SessionCounts(s, rom);
      if k == 0 {
        assert ops[..k] == [];
        NoOps(s.dev.upload);
      } else {
        assert ops[..k] == ops;
        CommitFits(s, rom);
      }
  }

  // ----- the handshake -----

  /** The requests acknowledged by the time the device is in a state. */
  function Progress(s: Status): seq<byte> {
    match s
    case WaitForUpdateReq => [TAG_SYNC_REQ]
    case WaitForDevId => [TAG_SYNC_REQ, TAG_UPDATE_REQ]
    case WaitForFwLength => [TAG_SYNC_REQ, TAG_UPDATE_REQ, TAG_DEV_ID_CHECK]
    case EraseOldFw => [TAG_SYNC_REQ, TAG_UPDATE_REQ, TAG_DEV_ID_CHECK, TAG_FW_UPDATE_SIZE]
    case ReceiveUpdate => [TAG_SYNC_REQ, TAG_UPDATE_REQ, TAG_DEV_ID_CHECK, TAG_FW_UPDATE_SIZE, TAG_ERASE_REQ]
    case _ => []
  }

  predicate HandshakeInv(s: System) {
    s.dev.status != LastCheck && s.dev.status != Done ==> s.acked == Progress(s.dev.status)
  }

  lemma ExtractedTag(p: Packet, isFirmware: bool)
    ensures Extract(p, isFirmware).tag == p[0] || Extract(p, isFirmware).tag == TAG_INVALID
  {
    hide Valid;
  }

  lemma PassKeepsHandshake(s: System, x: Input)
    requires HandshakeInv(s) && s.dev.status != Done
    ensures HandshakeInv(After(s, Pass(x)))
  {
    hide Extract, CheckUpdateSize, DeviceId, Bootable, Reload, Ping, FlashAfter, AfterWrite, Intended;
    if x.packet.Some? {
      ExtractedTag(x.packet.value, false);
      ExtractedTag(x.packet.value, true);
    }
  }

  /** A handshake state is left exactly by acknowledging its request; anything else, the acknowledged reset
      request included, changes nothing but the announced size. */
  lemma AdvanceIffAcknowledged(d: Device, f: Image, x: Input)
    requires Waiting(d.status) && d.status != ReceiveUpdate && !Fires(d.timeout, x.pingAt) && x.packet.Some?
    ensures var o := Iterate(d, f, x);
      var tag := Extract(x.packet.value, false).tag;
      && (o.dev.status == Next(d.status) <==> o.reply == Ack && tag != TAG_RST)
      && (o.dev.status != Next(d.status) ==> o.dev == d.(updateSize := o.dev.updateSize) && o.action == Nothing)
      && (o.dev.status == Next(d.status) ==> IsHandshakeTag(tag) && o.dev.last == d.status)
  {
    hide Extract, CheckUpdateSize, DeviceId, Reload, Start;
  }

  // ----- the timeout -----

  predicate Waiting(s: Status) {
    s in {WaitForSyncReq, WaitForUpdateReq, WaitForDevId, WaitForFwLength, EraseOldFw, ReceiveUpdate}
  }

  /** How long the device waits for the next packet. */
  function Patience(s: Status): nat {
    if s == ReceiveUpdate then 10000 else 5000
  }

  predicate TimerInv(s: System) {
    Waiting(s.dev.status) ==> s.dev.timeout == Start(s.armedAt, Patience(s.dev.status), false)
  }

  /** While receiving, exactly the acknowledged frames re-arm the timeout. */
  lemma ReceivingTimer(d: Device, f: Image, x: Input)
    requires d.status == ReceiveUpdate
    ensures var o := Iterate(d, f, x);
      && (o.dev.status == ReceiveUpdate ==>
            o.dev.timeout == if o.reply == Ack then Reload(d.timeout, x.actAt) else d.timeout)
      && (o.dev.status == ReceiveUpdate || !Waiting(o.dev.status))
      && (o.reply == Ack ==> x.packet.Some? && Extract(x.packet.value, true).tag in {TAG_FW_NEW, TAG_FW_REP})
  {
    hide Extract, Bootable, AfterWrite, Reload;
  }

  lemma ReceivingKeepsTimer(s: System, x: Input)
    requires TimerInv(s) && s.dev.status == ReceiveUpdate
    ensures TimerInv(After(s, Pass(x)))
  {
    hide Extract, Iterate, FlashAfter, Intended, AckedAfter, PayloadAfter;
    ReceivingTimer(s.dev, s.flash, x);
    if x.packet.Some? {
      ExtractedTag(x.packet.value, false);
      ExtractedTag(x.packet.value, true);
    }
  }

  lemma HandshakeKeepsTimer(s: System, x: Input)
    requires TimerInv(s) && s.dev.status != Done && s.dev.status != ReceiveUpdate
    ensures TimerInv(After(s, Pass(x)))
  {
    hide Extract, CheckUpdateSize, DeviceId, Bootable, FlashAfter, Receive, Intended, AckedAfter, PayloadAfter;
    if x.packet.Some? {
      ExtractedTag(x.packet.value, false);
    }
  }

  lemma PassKeepsTimer(s: System, x: Input)
    requires TimerInv(s) && s.dev.status != Done
    ensures TimerInv(After(s, Pass(x)))
  {
    hide TimerInv, After;
    if s.dev.status == ReceiveUpdate {
      ReceivingKeepsTimer(s, x);
    } else {
      HandshakeKeepsTimer(s, x);
    }
  }

  // ----- runs -----

  /** What holds in every state of every run. */
  ghost predicate RunInv(s: System, rom: seq<byte>) {
    FlashInv(s, rom) && HandshakeInv(s) && TimerInv(s)
  }

  ghost predicate Inv(s: System, rom: seq<byte>) {
    RunInv(s, rom) && BaseInv(s)
  }

  lemma StepKeepsRun(s: System, rom: seq<byte>, e: Event)
    requires RunInv(s, rom) && Enabled(s, e)
    ensures RunInv(After(s, e), rom)
  {
    hide FlashInv;
    match e
    case Pass(x) =>
      PassKeepsFlash(s, rom, x);
      PassKeepsHandshake(s, x);
      PassKeepsTimer(s, x);
    case PowerCut(x, k, bootAt) =>
      PowerCutKeepsFlash(s, rom, x, k, bootAt);
    case AppRun(ops, bootAt) =>
      AppRunKeepsFlash(s, rom, ops, bootAt);
  }

  lemma EventKeeps(s: System, rom: seq<byte>, e: Event)
    requires Inv(s, rom) && Allowed(s, e)
    ensures Inv(After(s, e), rom)
  {
    hide FlashInv, HandshakeInv, TimerInv, BaseInv, Disciplined;
    StepKeepsRun(s, rom, e);
    match e
    case Pass(x) => PassKeepsBase(s, rom, x);
    case PowerCut(x, k, bootAt) => PowerCutKeepsBase(s, rom, x, k, bootAt);
    case AppRun(ops, bootAt) => AppRunKeepsFlash(s, rom, ops, bootAt);
  }

  lemma {:induction false} FeasibleKeeps(s: System, rom: seq<byte>, es: seq<Event>)
    requires RunInv(s, rom) && Feasible(s, es)
    ensures RunInv(Run(s, es), rom)
    decreases |es|
  {
    hide RunInv, Enabled, After;
    if es != [] {
      StepKeepsRun(s, rom, es[0]);
      FeasibleKeeps(After(s, es[0]), rom, es[1..]);
    }
  }

  lemma {:induction false} SingleKeeps(s: System, rom: seq<byte>, es: seq<Event>)
    requires RunInv(s, rom) && FromStart(s) && SingleUploads(s, es)
    ensures RunInv(Run(s, es), rom) && FromStart(Run(s, es))
    decreases |es|
  {
    hide Enabled, After, FlashInv, HandshakeInv, TimerInv, FromStart, FirstUpload;
    if es != [] {
      StepKeepsRun(s, rom, es[0]);
      FromStartKept(s, rom, es[0]);
      SingleKeeps(After(s, es[0]), rom, es[1..]);
    }
  }

  lemma {:induction false} RunKeeps(s: System, rom: seq<byte>, es: seq<Event>)
    requires Inv(s, rom) && Legal(s, es)
    ensures Inv(Run(s, es), rom)
    decreases |es|
  {
    hide Inv, Allowed, After;
    if es != [] {
      EventKeeps(s, rom, es[0]);
      RunKeeps(After(s, es[0]), rom, es[1..]);
    }
  }

  lemma InitialInv(s: System)
    requires Initial(s)
    ensures Inv(s, s.flash[..BL_SIZE])
  {
  }

  /** Every state any run reaches from power-on. */
  lemma ReachedByAny(s0: System, es: seq<Event>)
    requires Initial(s0) && Feasible(s0, es)
    ensures RunInv(Run(s0, es), s0.flash[..BL_SIZE])
  {
    hide RunInv;
    InitialInv(s0);
    FeasibleKeeps(s0, s0.flash[..BL_SIZE], es);
  }

  /** Every state a legal run reaches from power-on satisfies the invariant. */
  lemma Reached(s0: System, es: seq<Event>)
    requires Initial(s0) && Legal(s0, es)
    ensures Inv(Run(s0, es), s0.flash[..BL_SIZE])
  {
    hide Inv;
    InitialInv(s0);
    RunKeeps(s0, s0.flash[..BL_SIZE], es);
  }

  // ----- the results -----

  /**
   Crash atomicity. However often and wherever the power fails, when the bootloader decides to start the
   application the application region is, cell for cell, what the last completed update left there (or
   what was there at power-on, if none completed); and the bootloader's own sector never changes.
   */
  lemma CrashAtomic(s0: System, es: seq<Event>)
    requires Initial(s0) && Legal(s0, es)
    ensures var s := Run(s0, es);
      && (s.dev.status == Done ==> App(s.flash) == s.base)
      && (App(s.flash) == s.base || !Bootable(s.flash))
      && s.flash[..BL_SIZE] == s0.flash[..BL_SIZE]
  {
    Reached(s0, es);
  }

  /** No run whatsoever changes the bootloader's own sector. */
  lemma BootloaderUntouched(s0: System, es: seq<Event>)
    requires Initial(s0) && Feasible(s0, es)
    ensures Run(s0, es).flash[..BL_SIZE] == s0.flash[..BL_SIZE]
  {
    ReachedByAny(s0, es);
  }

  /** A completed update: the flash from the parameter sector on is exactly the accepted bytes, as many as
      were announced, and blanks; the next look at the entry word decides between the application and the
      idle loop. */
  lemma CompletedUpdate(s0: System, es: seq<Event>, x: Input)
    requires Initial(s0) && Legal(s0, es) && Allowed(Run(s0, es), Pass(x))
    requires OutcomeOf(Run(s0, es), x).action == Commit
    ensures var s := Run(s0, es);
      var t := After(s, Pass(x));
      && |s.payload| == s.dev.updateSize <= FW_CAPACITY
      && t.flash[PARAMS_OFFSET..] == s.payload + Blanks(FLASH_SIZE - PARAMS_OFFSET - |s.payload|)
      && t.base == App(t.flash)
      && t.dev.status == LastCheck
  {
    hide Iterate, ApplyAll, Streaming, Intended;
    var s := Run(s0, es);
    Reached(s0, es);
    PassShape(s.dev, s.flash, x);
    CommitFits(s, s0.flash[..BL_SIZE]);
  }

  /** In any run, nothing is erased or programmed before the requests of the handshake were acknowledged in
      order since reset or the idle loop, and nothing is programmed below 0x08004000. */
  lemma HandshakeOrder(s0: System, es: seq<Event>, x: Input, i: nat)
    requires Initial(s0) && Feasible(s0, es) && Enabled(Run(s0, es), Pass(x))
    requires i < |OpsOf(Run(s0, es), x)|
    ensures var s := Run(s0, es);
      match OpsOf(s, x)[i]
      case Erase(n) =>
        && PARAMS_SECTOR <= n < SECTORS
        && s.acked == [TAG_SYNC_REQ, TAG_UPDATE_REQ, TAG_DEV_ID_CHECK, TAG_FW_UPDATE_SIZE]
      case Program(addr, data) =>
        && PARAMS_OFFSET <= addr
        && s.acked == [TAG_SYNC_REQ, TAG_UPDATE_REQ, TAG_DEV_ID_CHECK, TAG_FW_UPDATE_SIZE, TAG_ERASE_REQ]
  {
    hide Iterate, Session, After, TimerInv, Run, Feasible;
    var s := Run(s0, es);
    ReachedByAny(s0, es);
    PassShape(s.dev, s.flash, x);
  }

  /** With at most one upload per boot, nothing is ever programmed outside [0x08004000, 0x08080000), the
      overshoot of the final chunk included. */
  lemma ProgramsAfterHandshake(s0: System, es: seq<Event>, x: Input, i: nat)
    requires Initial(s0) && SingleUploads(s0, es) && Enabled(Run(s0, es), Pass(x))
    requires i < |OpsOf(Run(s0, es), x)|
    ensures var s := Run(s0, es);
      match OpsOf(s, x)[i]
      case Erase(n) =>
        && PARAMS_SECTOR <= n < SECTORS
        && s.acked == [TAG_SYNC_REQ, TAG_UPDATE_REQ, TAG_DEV_ID_CHECK, TAG_FW_UPDATE_SIZE]
      case Program(addr, data) =>
        && PARAMS_OFFSET <= addr && addr + |data| <= 0x8_0000
        && s.acked == [TAG_SYNC_REQ, TAG_UPDATE_REQ, TAG_DEV_ID_CHECK, TAG_FW_UPDATE_SIZE, TAG_ERASE_REQ]
  {
    hide Iterate, Streaming, After, TimerInv, Run, Feasible, SingleUploads;
    var s := Run(s0, es);
    LegalRuns(s0, es);
    InitialInv(s0);
    SingleKeeps(s0, s0.flash[..BL_SIZE], es);
    PassShape(s.dev, s.flash, x);
  }

  /** Every wait is guarded, in any run: in each waiting state the timeout is armed for 5 or 10 seconds after
      it was last started, a pass before that time keeps waiting unless the update completes, and the first
      pass after it leaves for the application or the idle loop. */
  lemma NoUnguardedWait(s0: System, es: seq<Event>, x: Input)
    requires Initial(s0) && Feasible(s0, es) && Waiting(Run(s0, es).dev.status)
    ensures var s := Run(s0, es);
      var o := OutcomeOf(s, x);
      && s.dev.timeout == Start(s.armedAt, Patience(s.dev.status), false)
      && (x.pingAt >= s.armedAt + Patience(s.dev.status) ==>
            o.dev.status == (if Bootable(s.flash) then Done else InfiniteLoop) && o.action == Nothing)
      && (x.pingAt < s.armedAt + Patience(s.dev.status) && o.action != Commit ==> Waiting(o.dev.status))
  {
    hide FlashInv, Iterate, Fires, Start, Bootable, Run, Feasible;
    ReachedByAny(s0, es);
    var s := Run(s0, es);
    ArmedDeadline(s.dev.timeout, s.armedAt, Patience(s.dev.status), x.pingAt);
    if Fires(s.dev.timeout, x.pingAt) {
      ExpiredPass(s.dev, s.flash, x);
    } else {
      EarlyPass(s.dev, s.flash, x);
    }
  }

  lemma ArmedDeadline(t: Timer, armedAt: nat, patience: nat, now: nat)
    requires t == Start(armedAt, patience, false)
    ensures Fires(t, now) <==> now >= armedAt + patience
  {
  }

  lemma ExpiredPass(d: Device, f: Image, x: Input)
    requires Fires(d.timeout, x.pingAt)
    ensures var o := Iterate(d, f, x);
      o.action == Nothing && o.dev.status == if Bootable(f) then Done else InfiniteLoop
  {
    hide Bootable;
  }

  lemma EarlyPass(d: Device, f: Image, x: Input)
    requires Waiting(d.status) && !Fires(d.timeout, x.pingAt)
    ensures var o := Iterate(d, f, x); o.action != Commit ==> Waiting(o.dev.status)
  {
    hide Extract, CheckUpdateSize, DeviceId, Bootable, Reload, Start, Fires, AfterWrite;
  }
}
