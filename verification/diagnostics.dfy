/** flash_io_dump_diagnostic (src/shared/flash-io.c): the watchdog log in the upper half of the parameter
    sector, one half-word per failed boot. */
module Diagnostics {
  import opened Bytes
  import opened Memory

  const SLOTS: nat := DIAG_SIZE / 2
  const BLANK_SLOT: seq<byte> := [0xFF, 0xFF]

  /** The i-th half-word of the log area. */
  function Slot(f: Image, i: nat): (v: seq<byte>)
    requires i < SLOTS
    ensures |v| == 2
  {
    f[DIAG_OFFSET + 2 * i..DIAG_OFFSET + 2 * i + 2]
  }

  /** The log holds the values, in order, and blanks. */
  ghost predicate Logs(f: Image, values: seq<seq<byte>>) {
    && |values| <= SLOTS
    && (forall i :: 0 <= i < |values| ==> values[i] != BLANK_SLOT && |values[i]| == 2)
    && (forall i :: 0 <= i < SLOTS ==> Slot(f, i) == if i < |values| then values[i] else BLANK_SLOT)
  }

  /** The log after one more boot has dumped a value. */
  function Dumped(values: seq<seq<byte>>, v: seq<byte>): seq<seq<byte>> {
    if |values| < SLOTS then values + [v] else values
  }

  lemma SlotOverlay(f: Image, k: nat, v: seq<byte>, i: nat)
    requires k < SLOTS && i < SLOTS && |v| == 2 && Slot(f, k) == BLANK_SLOT
    ensures Slot(Overlay(f, DIAG_OFFSET + 2 * k, v), i) == if i == k then v else Slot(f, i)
  {
    hide Burn;
    var at := DIAG_OFFSET + 2 * k;
    assert f[at] == Slot(f, k)[0] && f[at + 1] == Slot(f, k)[1];
    BurnBlank(v[0]);
    BurnBlank(v[1]);
    var g := Overlay(f, at, v);
    if i == k {
      assert g[at] == v[0] && g[at + 1] == v[1];
    } else {
      assert at + 2 <= DIAG_OFFSET + 2 * i || DIAG_OFFSET + 2 * i + 2 <= at;
    }
  }

  lemma LogGrows(f: Image, values: seq<seq<byte>>, v: seq<byte>)
    requires Logs(f, values) && |values| < SLOTS && |v| == 2 && v != BLANK_SLOT
    ensures Logs(Overlay(f, DIAG_OFFSET + 2 * |values|, v), values + [v])
  {
    hide Overlay, Slot;
    forall i | 0 <= i < SLOTS
      ensures Slot(Overlay(f, DIAG_OFFSET + 2 * |values|, v), i)
           == if i < |values + [v]| then (values + [v])[i] else BLANK_SLOT
    {
      SlotOverlay(f, |values|, v, i);
    }
  }

  class Watchdog {
    const flash: Flash
    /** static: cleared by every reset */
    var registerDumped: bool

    constructor (memory: Flash)
      requires memory.Valid()
      ensures flash == memory && !registerDumped
    {
      flash := memory;
      registerDumped := false;
    }

    /**
     flash_io_dump_diagnostic. hangs: the endless loop after a dump is reached, which the watchdog ends with a
     reset. The search stops at the first blank slot or at the end of the area.
     */
    method Dump(diagReg: seq<byte>, ghost values: seq<seq<byte>>) returns (hangs: bool)
      requires flash.Valid() && |diagReg| == 2 && diagReg != BLANK_SLOT && !registerDumped
      requires Logs(flash.Contents(), values)
      modifies this, flash, flash.cells
      ensures flash.Valid() && Logs(flash.Contents(), Dumped(values, diagReg))
      ensures hangs <==> |values| < SLOTS
      ensures forall a :: 0 <= a < FLASH_SIZE && !(DIAG_OFFSET <= a < DIAG_OFFSET + DIAG_SIZE) ==>
        flash.cells[a] == old(flash.cells[a])
    {
      hide Logs, Overlay;
      ghost var f := flash.Contents();
      var dumpAddr := DIAG_OFFSET;
      ghost var n := 0;
      hangs := false;
      while !registerDumped
        invariant flash.Valid() && flash.Contents() == f && !registerDumped
        invariant n < SLOTS && n <= |values| && dumpAddr == DIAG_OFFSET + 2 * n
        decreases SLOTS - n
      {
        var word := flash.cells[dumpAddr..dumpAddr + 2];
        assert word == Slot(f, n);
        SlotBlankIff(f, values, n);
        if word == BLANK_SLOT {
          flash.ProgramCells(dumpAddr, diagReg);
          registerDumped := true;
          LogGrows(f, values, diagReg);
          OverlayElsewhere(f, dumpAddr, diagReg);
          return true;
        }
        dumpAddr := dumpAddr + 2;
        n := n + 1;
        if dumpAddr - DIAG_OFFSET >= DIAG_SIZE {
          break;
        }
      }
      LogBound(f, values);
    }
  }

  lemma SlotBlankIff(f: Image, values: seq<seq<byte>>, n: nat)
    requires Logs(f, values) && n < SLOTS && n <= |values|
    ensures Slot(f, n) == BLANK_SLOT <==> n == |values|
  {
    hide Slot;
  }

  lemma LogBound(f: Image, values: seq<seq<byte>>)
    requires Logs(f, values)
    ensures |values| <= SLOTS
  {
  }

  lemma OverlayElsewhere(f: Image, addr: nat, data: seq<byte>)
    ensures forall a :: 0 <= a < FLASH_SIZE && !(addr <= a < addr + |data|) ==> Overlay(f, addr, data)[a] == f[a]
  {
  }

  /** The log after a series of boots, each dumping one value. */
  function DumpedAll(values: seq<seq<byte>>, boots: seq<seq<byte>>): seq<seq<byte>>
    decreases |boots|
  {
    if boots == [] then values else DumpedAll(Dumped(values, boots[0]), boots[1..])
  }

  /** From an erased area on, the log is the dumped values in order until all 4096 slots are taken; then
      nothing changes any more. */
  lemma {:induction false} LogIsHistory(values: seq<seq<byte>>, boots: seq<seq<byte>>)
    requires |values| <= SLOTS
    ensures DumpedAll(values, boots)
         == if |values| + |boots| <= SLOTS then values + boots else values + boots[..SLOTS - |values|]
    decreases |boots|
  {
    if boots == [] {
      assert values + boots == values;
    } else {
      LogIsHistory(Dumped(values, boots[0]), boots[1..]);
      if |values| < SLOTS {
        assert (values + [boots[0]]) + boots[1..] == values + boots;
        if |values| + |boots| > SLOTS {
          assert (values + [boots[0]]) + boots[1..][..SLOTS - |values| - 1] == values + boots[..SLOTS - |values|];
        }
      }
    }
  }

  /** A series of boots, each dumping one value into the same flash. */
  method Boots(flash: Flash, values: seq<seq<byte>>)
    requires flash.Valid() && Logs(flash.Contents(), [])
    requires forall i :: 0 <= i < |values| ==> |values[i]| == 2 && values[i] != BLANK_SLOT
    modifies flash, flash.cells
    ensures flash.Valid()
    ensures Logs(flash.Contents(), if |values| <= SLOTS then values else values[..SLOTS])
  {
    hide Logs;
    ghost var log: seq<seq<byte>> := [];
    for i := 0 to |values|
      invariant flash.Valid() && Logs(flash.Contents(), log)
      invariant DumpedAll(log, values[i..]) == DumpedAll([], values)
    {
      var boot := new Watchdog(flash);
      assert values[i..][0] == values[i] && values[i..][1..] == values[i + 1..];
      var hangs := boot.Dump(values[i], log);
      log := Dumped(log, values[i]);
    }
    LogIsHistory([], values);
    assert [] + values == values && (|values| > SLOTS ==> [] + values[..SLOTS] == values[..SLOTS]);
  }

  // ----- reading the log -----

  /** The 32-bit words of the area. */
  const AREA_WORDS: nat := DIAG_SIZE / 4

  /** The longest log read that fits a response, with the frame around it. */
  const READ_CAPACITY: nat := 252

  /** The lower half of the k-th 32-bit word of the area is blank. */
  predicate BlankWord(f: Image, k: nat)
    requires k < AREA_WORDS
  {
    Slot(f, 2 * k) == BLANK_SLOT
  }

  /** The words from the k-th on that the search passes over before one with a blank lower half. */
  function WordsFrom(f: Image, k: nat): (n: nat)
    requires k <= AREA_WORDS
    ensures k <= n <= AREA_WORDS
    decreases AREA_WORDS - k
  {
    if k == AREA_WORDS || BlankWord(f, k) then k else WordsFrom(f, k + 1)
  }

  /** How many words flash_io_read_diagnostic passes over; AREA_WORDS if it runs out of the area. */
  function Words(f: Image): (n: nat)
    ensures n <= AREA_WORDS
  {
    WordsFrom(f, 0)
  }

  /** What is read fits the response. */
  predicate Readable(f: Image) {
    Words(f) <= READ_CAPACITY
  }

  /** Words is the first word whose lower half is blank, if the area has one. */
  lemma {:induction false} WordsEnd(f: Image, k: nat, n: nat)
    requires k <= n <= AREA_WORDS && forall i :: k <= i < n ==> !BlankWord(f, i)
    requires n < AREA_WORDS ==> BlankWord(f, n)
    ensures WordsFrom(f, k) == n
    decreases n - k
  {
    if k < n {
      WordsEnd(f, k + 1, n);
    }
  }

  /** The search of flash_io_read_diagnostic, while it stays in the area. */
  method CountWords(flash: Flash) returns (n: nat)
    requires flash.Valid() && Words(flash.Contents()) < AREA_WORDS
    ensures n == Words(flash.Contents())
  {
    hide Slot;
    ghost var f := flash.Contents();
    WordsStop(f, 0);
    n := 0;
    while flash.cells[DIAG_OFFSET + 4 * n..DIAG_OFFSET + 4 * n + 2] != BLANK_SLOT
      invariant n <= Words(f) && forall i :: 0 <= i < n ==> !BlankWord(f, i)
      decreases Words(f) - n
    {
      WordOf(f, n);
      n := n + 1;
    }
    WordOf(f, n);
    WordsEnd(f, 0, n);
  }

  lemma {:induction false} WordsStop(f: Image, k: nat)
    requires k <= AREA_WORDS && WordsFrom(f, k) < AREA_WORDS
    ensures BlankWord(f, WordsFrom(f, k))
    decreases AREA_WORDS - k
  {
    if !BlankWord(f, k) {
      WordsStop(f, k + 1);
    }
  }

  /** flash_io_read_diagnostic: one byte is copied for each word passed over. */
  method ReadDiagnostic(flash: Flash, buffer: array<byte>, at: nat) returns (n: nat)
    requires flash.Valid() && Words(flash.Contents()) < AREA_WORDS
    requires buffer != flash.cells && at + Words(flash.Contents()) <= buffer.Length
    modifies buffer
    ensures n == Words(flash.Contents())
    ensures buffer[..] == old(buffer[..at]) + flash.Contents()[DIAG_OFFSET..DIAG_OFFSET + n] + old(buffer[at + n..])
  {
    hide Words;
    n := CountWords(flash);
    forall i | 0 <= i < n {
      buffer[at + i] := flash.cells[DIAG_OFFSET + i];
    }
  }

  lemma WordOf(f: Image, n: nat)
    requires n < AREA_WORDS
    ensures f[DIAG_OFFSET + 4 * n..DIAG_OFFSET + 4 * n + 2] == Slot(f, 2 * n)
  {
  }

  /** The bytes of a log. */
  function Flatten(values: seq<seq<byte>>): seq<byte> {
    if values == [] then [] else values[0] + Flatten(values[1..])
  }

  /** The search skips every other value, so it stops halfway through the log, and what it reads fits a response
      if and only if no more than 504 values were dumped. */
  lemma WordsOfLog(f: Image, values: seq<seq<byte>>)
    requires Logs(f, values)
    ensures Words(f) == (|values| + 1) / 2
    ensures Readable(f) <==> |values| <= 2 * READ_CAPACITY
  {
    hide Slot;
    var n := (|values| + 1) / 2;
    assert n < AREA_WORDS ==> BlankWord(f, n);
    WordsEnd(f, 0, n);
  }

  lemma {:induction false} FlattenAt(values: seq<seq<byte>>, i: nat, j: nat)
    requires i < |values| && j < 2 && forall k :: 0 <= k < |values| ==> |values[k]| == 2
    ensures |Flatten(values)| == 2 * |values| && Flatten(values)[2 * i + j] == values[i][j]
  {
    if |values| > 1 {
      FlattenAt(values[1..], if i == 0 then 0 else i - 1, j);
    } else {
      assert values[1..] == [];
    }
  }

  lemma LogByte(f: Image, values: seq<seq<byte>>, k: nat)
    requires Logs(f, values) && k < 2 * |values|
    ensures |Flatten(values)| == 2 * |values| && f[DIAG_OFFSET + k] == Flatten(values)[k]
  {
    hide Flatten;
    var i, j := k / 2, k % 2;
    FlattenAt(values, i, j);
    assert Slot(f, i) == values[i];
    assert Slot(f, i)[j] == f[DIAG_OFFSET + 2 * i + j];
  }

  /** What is read of a log is its first quarter, rounded up to whole bytes. */
  lemma ReadsQuarter(f: Image, values: seq<seq<byte>>)
    requires Logs(f, values)
    ensures |Flatten(values)| == 2 * |values| && Words(f) == (|values| + 1) / 2
    ensures f[DIAG_OFFSET..DIAG_OFFSET + Words(f)] == Flatten(values)[..(|values| + 1) / 2]
    ensures f[DIAG_OFFSET..DIAG_OFFSET + Words(f)] == Flatten(values) <==> values == []
  {
    hide Words, Readable, Flatten;
    WordsOfLog(f, values);
    FlattenNothing();
    if values != [] {
      LogByte(f, values, 0);
    }
    var n := (|values| + 1) / 2;
    var read, log := f[DIAG_OFFSET..DIAG_OFFSET + n], Flatten(values);
    forall k | 0 <= k < n ensures read[k] == log[k] {
      LogByte(f, values, k);
    }
    assert read == log[..n];
  }

  lemma FlattenNothing()
    ensures Flatten([]) == []
  {
  }
}
