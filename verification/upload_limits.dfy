/**
 Where the update transaction stops being one: what the device does outside the three conditions that
 CrashSafety.Disciplined puts on an upload.
 */
module UploadLimits {
  import opened Bytes
  import opened Memory
  import opened FlashIo
  import opened Protocol
  import opened Stimer
  import opened Update
  import opened CrashSafety

  /** A commit in any run: any sizes, any chunks, any number of uploads per boot. */
  ghost predicate Commits(s0: System, es: seq<Event>, x: Input) {
    && Initial(s0) && Feasible(s0, es) && Enabled(Run(s0, es), Pass(x))
    && OutcomeOf(Run(s0, es), x).action == Commit
  }

  lemma CommitState(s0: System, es: seq<Event>, x: Input)
    requires Commits(s0, es, x)
    ensures var s := Run(s0, es);
      && |s.dev.upload.entry| == 4 && |s.payload| == s.dev.updateSize && 0 < |s.payload| <= FW_CAPACITY
      && FlashInv(s, s0.flash[..BL_SIZE]) && s.dev.status == ReceiveUpdate && Session(s)
      && After(s, Pass(x)).flash == ApplyAll(s.flash, [Program(APP_OFFSET, s.dev.upload.entry)])
  {
    hide Iterate, ApplyAll, Streaming, Intended;
    ReachedByAny(s0, es);
    PassShape(Run(s0, es).dev, Run(s0, es).flash, x);
  }

  /**
   Whatever the announced size and however it was cut into chunks, a commit is faithful if and only if
   programming the word that was kept back does not clear a bit of what belongs there. An image of at most
   0x4000 bytes never is: its commit programs the initial value of the word, and the boot check accepts an
   application region that holds nothing. An image whose word was kept back as far as it goes is faithful if
   and only if blanks followed it in its packet; from 0x4004 bytes on nothing did.
   */
  lemma CommitFaithfulIff(s0: System, es: seq<Event>, x: Input)
    requires Commits(s0, es, x) && Run(s0, es).dev.upload.written == |Run(s0, es).payload|
    ensures var s := Run(s0, es);
      var t := After(s, Pass(x));
      var size, entry := s.dev.updateSize, s.dev.upload.entry;
      && |entry| == 4
      && (App(t.flash) == Intended(s.payload) <==> WordFits(s.payload, s.held, entry))
      && (size <= PARAMS_SIZE ==>
            && !WordFits(s.payload, s.held, entry) && Intended(s.payload) == Blanks(APP_SIZE)
            && Entry(t.flash) == INITIAL_ENTRY && Bootable(t.flash))
      && (size > PARAMS_SIZE && HeldWhole(size, s.held) ==>
            (WordFits(s.payload, s.held, entry) <==> RestBlank(entry, size)))
  {
    hide Iterate, ApplyAll, Intended, Streamed, WordFits, RestBlank, Run, Feasible, Bootable, Entry, FlashInv;
    var s := Run(s0, es);
    CommitState(s0, es, x);
    LaidFromStart(s);
    CommitImage(s.flash, s.payload, s.held, s.dev.upload.entry);
    if |s.payload| <= PARAMS_SIZE {
      ShortCommit(s.flash, s.payload);
    } else if HeldWhole(|s.payload|, s.held) {
      HeldWordFits(s.payload, s.held, s.dev.upload.entry);
    }
  }

  /** The bytes of the withheld word that are not the image's. */
  predicate RestBlank(entry: seq<byte>, size: nat)
    requires |entry| == 4 && size >= PARAMS_SIZE
  {
    forall i :: size - PARAMS_SIZE <= i < 4 ==> entry[i] == BLANK
  }

  lemma HeldWordFits(payload: seq<byte>, held: nat, entry: seq<byte>)
    requires |entry| == 4 && |payload| > PARAMS_SIZE && HeldWhole(|payload|, held)
    ensures WordFits(payload, held, entry) <==> RestBlank(entry, |payload|)
  {
    hide Burn;
    var word := Intended(payload);
    forall j | held <= j < 4 ensures word[j] == BLANK && Burn(word[j], entry[j]) == entry[j] {
      BurnBlank(entry[j]);
    }
  }

  lemma ShortCommit(f: Image, payload: seq<byte>)
    requires Streamed(f, payload, 0) && |payload| <= PARAMS_SIZE
    ensures var g := ApplyAll(f, [Program(APP_OFFSET, INITIAL_ENTRY)]);
      && Intended(payload) == Blanks(APP_SIZE) && !WordFits(payload, 0, INITIAL_ENTRY)
      && Entry(g) == INITIAL_ENTRY && Bootable(g)
  {
    hide Burn;
    ApplyOne(f, Program(APP_OFFSET, INITIAL_ENTRY));
    var g := Overlay(f, APP_OFFSET, INITIAL_ENTRY);
    forall i | 0 <= i < 4 ensures Entry(g)[i] == INITIAL_ENTRY[i] {
      BurnBlank(INITIAL_ENTRY[i]);
    }
    assert Entry(g) == INITIAL_ENTRY;
    assert Entry(g)[2] != BLANK_WORD[2] && Entry(g)[0] != ZERO_WORD[0];
    BurnBlank(INITIAL_ENTRY[2]);
    assert Burn(Intended(payload)[2], INITIAL_ENTRY[2]) != Intended(payload)[2];
  }

  /**
   If no chunk starts on the first word of the vector table, one straddles its beginning and nothing is kept
   back. The commit then clears the upper half of the word: it is faithful if and only if that half was zero
   anyway, and the result is bootable if and only if the lower half is not.
   */
  lemma StraddledCommitIff(s0: System, es: seq<Event>, x: Input)
    requires Commits(s0, es, x) && Run(s0, es).dev.upload.written == |Run(s0, es).payload|
    requires Run(s0, es).dev.updateSize > PARAMS_SIZE && Run(s0, es).held == 0
    ensures var s := Run(s0, es);
      var t := After(s, Pass(x));
      var word := Intended(s.payload);
      && (App(t.flash) == word <==> word[2] == 0 && word[3] == 0)
      && Entry(t.flash) == [word[0], word[1], 0, 0]
      && (Bootable(t.flash) <==> word[0] != 0 || word[1] != 0)
  {
    hide Iterate, ApplyAll, Intended, Streamed, WordFits;
    var s := Run(s0, es);
    CommitState(s0, es, x);
    LaidFromStart(s);
    CommitImage(s.flash, s.payload, 0, INITIAL_ENTRY);
    StraddledWord(s.flash, s.payload);
  }

  lemma BurnZero(b: byte)
    ensures Burn(b, 0) == 0
  {
  }

  lemma StraddledWord(f: Image, payload: seq<byte>)
    requires Streamed(f, payload, 0) && |payload| > PARAMS_SIZE
    ensures var g, word := ApplyAll(f, [Program(APP_OFFSET, INITIAL_ENTRY)]), Intended(payload);
      && (WordFits(payload, 0, INITIAL_ENTRY) <==> word[2] == 0 && word[3] == 0)
      && Entry(g) == [word[0], word[1], 0, 0]
      && (Bootable(g) <==> word[0] != 0 || word[1] != 0)
  {
    hide Burn, Overlay, Streamed, Intended;
    ApplyOne(f, Program(APP_OFFSET, INITIAL_ENTRY));
    var g, word := Overlay(f, APP_OFFSET, INITIAL_ENTRY), Intended(payload);
    BurnBlank(word[0]);
    BurnBlank(word[1]);
    BurnZero(word[2]);
    BurnZero(word[3]);
    forall j | 0 <= j < 4 ensures Entry(g)[j] == Burn(word[j], INITIAL_ENTRY[j]) {
      CommitCell(f, payload, 0, INITIAL_ENTRY, APP_OFFSET + j);
      IntendedByte(payload, j);
    }
    assert Entry(g) == [word[0], word[1], 0, 0];
    assert Entry(g)[2] != BLANK_WORD[2];
    assert Entry(g) == ZERO_WORD <==> Entry(g)[0] == 0 && Entry(g)[1] == 0;
    assert WordFits(payload, 0, INITIAL_ENTRY) <==>
      forall j :: 0 <= j < 4 ==> Burn(word[j], INITIAL_ENTRY[j]) == word[j];
    assert INITIAL_ENTRY == [0xFF, 0xFF, 0, 0];
  }

  lemma IntendedByte(payload: seq<byte>, j: nat)
    requires j < 4
    ensures Intended(payload)[j] == if PARAMS_SIZE + j < |payload| then payload[PARAMS_SIZE + j] else BLANK
  {
  }

  // ----- when the device would start a partial image -----

  /** A word that passes for a vector table. */
  predicate Looks(word: seq<byte>) {
    word != BLANK_WORD && word != ZERO_WORD
  }

  /**
   In any run, at any moment of any upload, the region is taken for an application if and only if the bytes the
   upload has put into the first word of the vector table, and not kept back, look like one. Silence is enough
   then: the pass that finds the timeout run out starts the partial image if and only if they do.
   */
  lemma BootableIff(s0: System, es: seq<Event>, x: Input)
    requires Initial(s0) && Feasible(s0, es) && Run(s0, es).dev.status == ReceiveUpdate
    ensures var s := Run(s0, es);
      var word := Exposed(Laid(s), s.held);
      && Entry(s.flash) == word
      && (Bootable(s.flash) <==> Looks(word))
      && (x.pingAt >= s.armedAt + Patience(ReceiveUpdate) ==>
            (OutcomeOf(s, x).dev.status == Done <==> Looks(word)))
  {
    hide Iterate, Streamed, Entry, Exposed, Run, Feasible;
    var s := Run(s0, es);
    ReachedByAny(s0, es);
    StreamedEntry(s.flash, Laid(s), s.held);
    NoUnguardedWait(s0, es, x);
  }

  /**
   The same for a reset inside a chunk, in any run: after k of its bytes the region is taken for an application
   if and only if what the upload and those k bytes have put into the word looks like a vector table.
   */
  lemma CutBootableIff(s0: System, es: seq<Event>, x: Input, k: nat, bootAt: nat)
    requires Initial(s0) && Feasible(s0, es) && Enabled(Run(s0, es), Pass(x))
    requires var a := OutcomeOf(Run(s0, es), x).action;
      a.Write? && k <= a.len
    ensures var s := Run(s0, es);
      var chunk := OutcomeOf(s, x).action.chunk;
      && Enabled(s, PowerCut(x, k, bootAt))
      && (Bootable(After(s, PowerCut(x, k, bootAt)).flash) <==>
            Looks(Exposed(Laid(s) + chunk[..k], HeldBytes(s.held, s.dev.upload, k))))
  {
    hide Iterate, ApplyAll, Streaming, Exposed, WriteOps, Run, Feasible, Entry;
    var s := Run(s0, es);
    var Write(chunk, len) := OutcomeOf(s, x).action;
    ReachedByAny(s0, es);
    CutEntry(s, s0.flash[..BL_SIZE], x, chunk, len, k, bootAt);
  }

  lemma CutEntry(s: System, rom: seq<byte>, x: Input, chunk: seq<byte>, len: nat, k: nat, bootAt: nat)
    requires FlashInv(s, rom) && OutcomeOf(s, x).action == Write(chunk, len) && len <= |chunk| && k <= len
    ensures Entry(After(s, PowerCut(x, k, bootAt)).flash)
         == Exposed(Laid(s) + chunk[..k], HeldBytes(s.held, s.dev.upload, k))
  {
    hide Iterate, ApplyAll, Streamed, Exposed, WriteOps, Entry;
    PassShape(s.dev, s.flash, x);
    WriteCut(s.flash, Laid(s), s.held, s.dev.upload, chunk, len, k);
    StreamedEntry(After(s, PowerCut(x, k, bootAt)).flash, Laid(s) + chunk[..k], HeldBytes(s.held, s.dev.upload, k));
  }

  /** What the first k bytes of a chunk put into the first word of the vector table: those that fall into it,
      unless the chunk starts on it. */
  function EarlyWord(u: Upload, chunk: seq<byte>, k: nat): (w: seq<byte>)
    requires k <= |chunk|
    ensures |w| == 4
  {
    seq(4, j requires 0 <= j < 4 =>
      if u.written != PARAMS_SIZE && u.written <= PARAMS_SIZE + j < u.written + k
      then chunk[PARAMS_SIZE + j - u.written] else BLANK)
  }

  /**
   The first chunk that breaks the discipline: after a disciplined run, whatever chunk comes next, a reset after
   k of its bytes starts a partial image if and only if the bytes it put into the word by then look like a vector
   table; there is such a k if and only if the chunk puts any byte there that is not blank. A chunk that misses
   the word or starts on it puts none.
   */
  lemma EarlyBootIff(s0: System, es: seq<Event>, x: Input, bootAt: nat)
    requires Initial(s0) && Legal(s0, es)
    requires var s := Run(s0, es);
      Enabled(s, Pass(x)) && OutcomeOf(s, x).action.Write?
    ensures var s := Run(s0, es);
      var Write(chunk, len) := OutcomeOf(s, x).action;
      && (forall k :: 0 <= k <= len ==>
            && Enabled(s, PowerCut(x, k, bootAt))
            && (Bootable(After(s, PowerCut(x, k, bootAt)).flash) <==> Looks(EarlyWord(s.dev.upload, chunk, k))))
      && ((exists k :: 0 <= k <= len && Bootable(After(s, PowerCut(x, k, bootAt)).flash)) <==>
            EarlyWord(s.dev.upload, chunk, len) != BLANK_WORD)
      && (Aligned(s.dev.upload.written, len) ==> EarlyWord(s.dev.upload, chunk, len) == BLANK_WORD)
      && s.dev.upload.written < s.dev.updateSize
  {
    hide Iterate, ApplyAll, EarlyWord, Exposed, Bootable, WriteOps, Streaming, Legal, Feasible, Run;
    var s := Run(s0, es);
    var Write(chunk, len) := OutcomeOf(s, x).action;
    var u := s.dev.upload;
    Reached(s0, es);
    LegalRuns(s0, es);
    PassShape(s.dev, s.flash, x);
    LaidFromStart(s);
    forall k | 0 <= k <= len
      ensures Enabled(s, PowerCut(x, k, bootAt))
      ensures Bootable(After(s, PowerCut(x, k, bootAt)).flash) <==> Looks(EarlyWord(u, chunk, k))
    {
      CutBootableIff(s0, es, x, k, bootAt);
      ExposedEarly(s.payload, s.held, u, chunk, k);
    }
    EarliestByte(u, chunk, len);
    if Aligned(u.written, len) {
      AlignedWord(u, chunk, len);
    }
  }

  lemma ExposedEarly(payload: seq<byte>, held: nat, u: Upload, chunk: seq<byte>, k: nat)
    requires u.written == |payload| && k <= |chunk| && HeldWhole(|payload|, held)
    ensures Exposed(payload + chunk[..k], HeldBytes(held, u, k)) == EarlyWord(u, chunk, k)
  {
  }

  /** The first byte put into the word that is not blank makes it look like a vector table. */
  lemma EarliestByte(u: Upload, chunk: seq<byte>, len: nat)
    requires len <= |chunk|
    ensures (exists k :: 0 <= k <= len && Looks(EarlyWord(u, chunk, k))) <==> EarlyWord(u, chunk, len) != BLANK_WORD
  {
    var word := EarlyWord(u, chunk, len);
    if word != BLANK_WORD {
      var j := if word[0] != BLANK then 0 else if word[1] != BLANK then 1 else if word[2] != BLANK then 2 else 3;
      assert word[j] != BLANK;
      var k := PARAMS_SIZE + j + 1 - u.written;
      var early := EarlyWord(u, chunk, k);
      forall i | 0 <= i < 4 ensures early[i] == if i == j then word[j] else BLANK {
        assert i < j ==> early[i] == word[i];
      }
      assert early[j] != BLANK_WORD[j] && early[(j + 1) % 4] != ZERO_WORD[(j + 1) % 4];
      assert Looks(early);
    } else {
      forall k | 0 <= k <= len ensures EarlyWord(u, chunk, k) == BLANK_WORD {
        assert forall j :: 0 <= j < 4 ==> word[j] == BLANK_WORD[j];
      }
    }
  }

  lemma AlignedWord(u: Upload, chunk: seq<byte>, len: nat)
    requires len <= |chunk| && Aligned(u.written, len)
    ensures EarlyWord(u, chunk, len) == BLANK_WORD
  {
  }

  /**
   The write offset is only reset with the device. On a freshly erased partition a chunk lies exactly as many
   bytes from the start as were written since reset; a first byte other than 0xFF reaches the first cell if and
   only if there were none.
   */
  lemma UploadOffsetIff(f: Image, u: Upload, chunk: seq<byte>, len: nat)
    requires Streamed(f, [], 0)
    requires 4 <= |chunk| && 0 < len <= |chunk| && PARAMS_OFFSET + u.written + len <= FLASH_SIZE
    ensures var g := ApplyAll(f, WriteOps(u, chunk, len));
      && g[PARAMS_OFFSET..] == Blanks(u.written) + Withheld(u, chunk)[..len]
                               + Blanks(FLASH_SIZE - PARAMS_OFFSET - u.written - len)
      && (chunk[0] != BLANK ==> (g[PARAMS_OFFSET] == chunk[0] <==> u.written == 0))
  {
    hide Overlay;
    var at, data := PARAMS_OFFSET + u.written, Withheld(u, chunk)[..len];
    BytewiseOverlay(f, at, data);
    OverlayOnBlank(f, at, data);
    var g := Overlay(f, at, data);
    var run := g[at..at + len];
    var whole := Blanks(u.written) + data + Blanks(FLASH_SIZE - at - len);
    forall k | 0 <= k < |whole| ensures g[PARAMS_OFFSET + k] == whole[k] {
      if u.written <= k < u.written + len {
        assert g[PARAMS_OFFSET + k] == run[k - u.written] == data[k - u.written];
      } else {
        assert g[PARAMS_OFFSET + k] == f[PARAMS_OFFSET + k] == BLANK;
      }
    }
    assert g[PARAMS_OFFSET] == g[PARAMS_OFFSET + 0] == whole[0];
    assert g[PARAMS_OFFSET..] == whole;
  }

  // ----- what a commit leaves, in any run -----

  /** The first word of the vector table after the commit. */
  function CommittedWord(laid: seq<byte>, held: nat, entry: seq<byte>): (w: seq<byte>)
    requires |entry| == 4
    ensures |w| == 4
  {
    seq(4, j requires 0 <= j < 4 =>
      if j < held then Intended(laid)[j] else Burn(Intended(laid)[j], entry[j]))
  }

  /**
   Any commit, the second upload of a boot included: outside the first word the partition holds what was written
   before its erase as blanks, then the payload, then blanks; and the region is taken for an application if and
   only if the word, as the commit leaves it, looks like a vector table.
   */
  lemma CommitContents(s0: System, es: seq<Event>, x: Input, i: nat)
    requires Commits(s0, es, x) && PARAMS_OFFSET <= i < FLASH_SIZE
    ensures var s := Run(s0, es);
      var t := After(s, Pass(x));
      var laid := Laid(s);
      && |s.dev.upload.entry| == 4
      && (!(APP_OFFSET <= i < APP_OFFSET + 4) ==>
            t.flash[i] == if i - PARAMS_OFFSET < |laid| then laid[i - PARAMS_OFFSET] else BLANK)
      && Entry(t.flash) == CommittedWord(laid, s.held, s.dev.upload.entry)
      && (Bootable(t.flash) <==> Looks(CommittedWord(laid, s.held, s.dev.upload.entry)))
  {
    hide Iterate, ApplyAll, Streamed, Run, Feasible, Intended, CommittedWord, Entry, Overlay;
    var s := Run(s0, es);
    CommitState(s0, es, x);
    ApplyOne(s.flash, Program(APP_OFFSET, s.dev.upload.entry));
    CommitCell(s.flash, Laid(s), s.held, s.dev.upload.entry, i);
    CommitEntry(s.flash, Laid(s), s.held, s.dev.upload.entry);
  }

  lemma CommitEntry(f: Image, laid: seq<byte>, held: nat, entry: seq<byte>)
    requires Streamed(f, laid, held) && HeldWithin(laid, held) && |entry| == 4
    requires held > 0 ==> laid[PARAMS_SIZE..PARAMS_SIZE + held] <= entry
    ensures Entry(Overlay(f, APP_OFFSET, entry)) == CommittedWord(laid, held, entry)
  {
    hide Burn, Overlay, Streamed, Intended;
    forall j | 0 <= j < 4 ensures Overlay(f, APP_OFFSET, entry)[APP_OFFSET + j] == CommittedWord(laid, held, entry)[j] {
      CommitCell(f, laid, held, entry, APP_OFFSET + j);
      IntendedByte(laid, j);
    }
  }

  /**
   Over whole runs, as long as the uploads of a boot stay within the flash: a completed upload leaves exactly its
   bytes and blanks in the partition if and only if the withheld word fits and nothing had been written between
   the reset and its erase, or nothing but blanks was uploaded.
   */
  lemma SecondUploadIff(s0: System, es: seq<Event>, x: Input)
    requires Commits(s0, es, x) && PARAMS_OFFSET + Run(s0, es).dev.upload.written <= FLASH_SIZE
    ensures var s := Run(s0, es);
      var t := After(s, Pass(x));
      && |s.payload| <= FW_CAPACITY && |s.dev.upload.entry| == 4
      && (t.flash[PARAMS_OFFSET..] == s.payload + Blanks(FLASH_SIZE - PARAMS_OFFSET - |s.payload|) <==>
            && WordFits(Laid(s), s.held, s.dev.upload.entry)
            && (s.dev.upload.written == |s.payload| || s.payload == Blanks(|s.payload|)))
  {
    hide Iterate, ApplyAll, Streamed, WordFits, Run, Feasible, Intended, FlashInv;
    var s := Run(s0, es);
    CommitState(s0, es, x);
    CommitImage(s.flash, Laid(s), s.held, s.dev.upload.entry);
    if s.dev.upload.written == |s.payload| {
      LaidFromStart(s);
    } else if s.payload == Blanks(|s.payload|) {
      AllBlank(Offset(s), |s.payload|);
    } else {
      Displaced(s.flash, Offset(s), s.payload, s.held, s.dev.upload.entry);
    }
  }

  lemma AllBlank(w: nat, n: nat)
    requires w + n <= FLASH_SIZE - PARAMS_OFFSET
    ensures var size := FLASH_SIZE - PARAMS_OFFSET;
      Blanks(w) + Blanks(n) + Blanks(size - (w + n)) == Blanks(n) + Blanks(size - n)
  {
  }

  /** A payload that is not all blank and does not begin at the start is not where it belongs. */
  lemma Displaced(f: Image, w: nat, payload: seq<byte>, held: nat, entry: seq<byte>)
    requires w > 0 && w + |payload| <= FLASH_SIZE - PARAMS_OFFSET && payload != Blanks(|payload|)
    requires Streamed(f, Blanks(w) + payload, held) && HeldWithin(Blanks(w) + payload, held) && |entry| == 4
    requires held > 0 ==> (Blanks(w) + payload)[PARAMS_SIZE..PARAMS_SIZE + held] <= entry
    ensures ApplyAll(f, [Program(APP_OFFSET, entry)])[PARAMS_OFFSET..]
         != payload + Blanks(FLASH_SIZE - PARAMS_OFFSET - |payload|)
  {
    hide ApplyAll, Streamed, Overlay, Burn;
    var m := LastWritten(payload);
    var i := PARAMS_OFFSET + w + m;
    ApplyOne(f, Program(APP_OFFSET, entry));
    CommitCell(f, Blanks(w) + payload, held, entry, i);
    assert (Blanks(w) + payload)[w + m] == payload[m];
    DisplacedByte(payload, Overlay(f, APP_OFFSET, entry), entry, m, i);
  }

  lemma LastWritten(payload: seq<byte>) returns (m: nat)
    requires payload != Blanks(|payload|)
    ensures m < |payload| && payload[m] != BLANK && forall i :: m < i < |payload| ==> payload[i] == BLANK
  {
    m := |payload| - 1;
    while payload[m] == BLANK
      invariant m < |payload| && forall i :: m < i < |payload| ==> payload[i] == BLANK
      decreases m
    {
      if m == 0 {
        assert false;
      }
      m := m - 1;
    }
  }

  /** The last byte of a displaced payload that is not blank lies where the payload has none. */
  lemma DisplacedByte(payload: seq<byte>, g: Image, entry: seq<byte>, m: nat, i: nat)
    requires |payload| <= FLASH_SIZE - PARAMS_OFFSET && |entry| == 4
    requires m < |payload| && payload[m] != BLANK && forall j :: m < j < |payload| ==> payload[j] == BLANK
    requires PARAMS_OFFSET + m < i < FLASH_SIZE
    requires g[i] == payload[m] || exists e :: g[i] == Burn(payload[m], e)
    ensures g[PARAMS_OFFSET..] != payload + Blanks(FLASH_SIZE - PARAMS_OFFSET - |payload|)
  {
    hide Burn;
    var image := payload + Blanks(FLASH_SIZE - PARAMS_OFFSET - |payload|);
    assert image[i - PARAMS_OFFSET] == BLANK;
    assert g[PARAMS_OFFSET..][i - PARAMS_OFFSET] == g[i];
    forall e ensures Burn(payload[m], e) != BLANK {
      BurnKeepsZeros(payload[m], e);
    }
  }

  lemma BurnKeepsZeros(b: byte, e: byte)
    requires b != BLANK
    ensures Burn(b, e) != BLANK
  {
  }

  // ----- recovery -----

  /** The bytes an upload has at the place of the device id. */
  function IdOf(laid: seq<byte>): (id: seq<byte>)
    ensures |id| == 4
  {
    seq(4, j requires 0 <= j < 4 =>
      var at := FW_INFO_OFFSET + 4 + j - PARAMS_OFFSET;
      if at < |laid| then laid[at] else BLANK)
  }

  /**
   After a reset inside an update the id that Answers.IdAnswered compares with is no longer the old one: from the
   second sector erased on it is FF FF FF FF, and after k bytes of a chunk what the upload has by then, blank where
   it has not come that far.
   */
  lemma RecoveryId(s0: System, es: seq<Event>, x: Input, k: nat, bootAt: nat)
    requires Initial(s0) && Feasible(s0, es) && Enabled(Run(s0, es), PowerCut(x, k, bootAt))
    ensures var s := Run(s0, es);
      var t := After(s, PowerCut(x, k, bootAt));
      var a := OutcomeOf(s, x).action;
      && (a == ErasePartition && k >= 2 ==> DeviceId(t.flash) == BLANK_WORD)
      && (a == ErasePartition && k <= 1 ==> DeviceId(t.flash) == DeviceId(s.flash))
      && (a.Write? ==> k <= a.len && DeviceId(t.flash) == IdOf(Laid(s) + a.chunk[..k]))
  {
    hide Iterate, ApplyAll, Streamed, WriteOps, Run, Feasible, DeviceId, IdOf;
    var s := Run(s0, es);
    var t := After(s, PowerCut(x, k, bootAt));
    var a := OutcomeOf(s, x).action;
    ReachedByAny(s0, es);
    PassShape(s.dev, s.flash, x);
    if a == ErasePartition {
      EraseCommands(s.dev.upload);
      ErasedId(s.flash, k);
    } else if a.Write? {
      WriteCut(s.flash, Laid(s), s.held, s.dev.upload, a.chunk, a.len, k);
      StreamedId(t.flash, Laid(s) + a.chunk[..k], HeldBytes(s.held, s.dev.upload, k));
    }
  }

  lemma ErasedId(f: Image, k: nat)
    requires k <= |PARTITION_ERASE|
    ensures var g := ApplyAll(f, PARTITION_ERASE[..k]);
      DeviceId(g) == if k >= 2 then BLANK_WORD else DeviceId(f)
  {
    EraseOpsPrefix(f, PARAMS_SECTOR, SECTORS - PARAMS_SECTOR, k);
    var g := ApplyAll(f, PARTITION_ERASE[..k]);
    forall j | 0 <= j < 4 ensures DeviceId(g)[j] == if k >= 2 then BLANK else DeviceId(f)[j] {
      assert DeviceId(g)[j] == g[FW_INFO_OFFSET + 4 + j] && DeviceId(f)[j] == f[FW_INFO_OFFSET + 4 + j];
    }
    assert k >= 2 ==> DeviceId(g) == BLANK_WORD;
  }

  lemma StreamedId(f: Image, laid: seq<byte>, held: nat)
    requires Streamed(f, laid, held) && HeldWithin(laid, held)
    ensures DeviceId(f) == IdOf(laid)
  {
  }
}
