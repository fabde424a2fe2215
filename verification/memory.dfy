/**
 The flash memory and its map (src/shared/mem-blocks.h). Addresses are offsets from FLASH_BASE
 (0x08000000). Erasing a sector sets its cells to 0xFF; programming can only clear bits.

 Every erase and every program command is one FlashOp: a reset can fall between any two of them, so
 the flash after a reset is the flash after some prefix of the commands issued.
 */
module Memory {
  import opened Bytes

  const FLASH_SIZE: nat := 0x10_0000
  const BL_SIZE: nat := 0x4000
  const PARAMS_OFFSET: nat := BL_SIZE
  const PARAMS_SECTOR: nat := 1
  const DIAG_OFFSET: nat := PARAMS_OFFSET + 0x2000
  const DIAG_SIZE: nat := 0x2000
  const PARAMS_SIZE: nat := 0x4000
  const APP_OFFSET: nat := BL_SIZE + PARAMS_SIZE
  const FW_CAPACITY: nat := 1024 * 512 - BL_SIZE - PARAMS_SIZE
  /** sizeof(vector_table_t) in libopencm3 for this chip, which is not part of this repository:
      16 core entries and 91 interrupts. No property below depends on the value. */
  const VECTOR_TABLE_SIZE: nat := 4 * (16 + 91)
  const FW_INFO_OFFSET: nat := APP_OFFSET + VECTOR_TABLE_SIZE
  const SECTORS: nat := 12

  type Image = f: seq<byte> | |f| == FLASH_SIZE witness seq(FLASH_SIZE, _ => 0xFF)

  /** First cell of a sector of the STM32F407: four of 16 KiB, one of 64 KiB, seven of 128 KiB. */
  function SectorStart(n: nat): nat {
    if n <= 4 then n * 0x4000 else (n - 4) * 0x2_0000
  }

  datatype FlashOp =
    | Erase(sector: nat)
    | Program(addr: nat, data: seq<byte>)

  /** f with the cells of [from, to) erased. */
  function Erased(f: Image, from: nat, to: nat): (f': Image) {
    seq(FLASH_SIZE, i requires 0 <= i < FLASH_SIZE => if from <= i < to then BLANK else f[i])
  }

  /** Programming a cell clears the bits that are zero in the value. */
  function Burn(cell: byte, value: byte): byte {
    cell & value
  }

  lemma BurnBlank(b: byte)
    ensures Burn(BLANK, b) == b && Burn(b, BLANK) == b
  {
  }

  /** f with data programmed from cell addr on; cells past the end do not exist. */
  function Overlay(f: Image, addr: nat, data: seq<byte>): (f': Image) {
    seq(FLASH_SIZE, i requires 0 <= i < FLASH_SIZE =>
      if addr <= i < addr + |data| then Burn(f[i], data[i - addr]) else f[i])
  }

  function Apply(f: Image, op: FlashOp): Image {
    match op
    case Erase(n) => Erased(f, SectorStart(n), SectorStart(n + 1))
    case Program(addr, data) => Overlay(f, addr, data)
  }

  function ApplyAll(f: Image, ops: seq<FlashOp>): Image {
    if ops == [] then f else Apply(ApplyAll(f, ops[..|ops| - 1]), ops[|ops| - 1])
  }

  lemma {:induction false} ApplyAllConcat(f: Image, a: seq<FlashOp>, b: seq<FlashOp>)
    ensures ApplyAll(f, a + b) == ApplyAll(ApplyAll(f, a), b)
  {
    if b == [] {
      assert a + b == a;
    } else {
      assert (a + b)[..|a + b| - 1] == a + b[..|b| - 1];
      ApplyAllConcat(f, a, b[..|b| - 1]);
    }
  }

  /** data programmed one byte at a time. */
  function BytewiseOps(addr: nat, data: seq<byte>): (ops: seq<FlashOp>)
    ensures |ops| == |data|
  {
    seq(|data|, i requires 0 <= i < |data| => Program(addr + i, [data[i]]))
  }

  lemma {:induction false} BytewiseOverlay(f: Image, addr: nat, data: seq<byte>)
    ensures ApplyAll(f, BytewiseOps(addr, data)) == Overlay(f, addr, data)
  {
    hide Overlay;
    var ops := BytewiseOps(addr, data);
    if data == [] {
      OverlayNothing(f, addr);
    } else {
      var k := |data| - 1;
      assert ops[..k] == BytewiseOps(addr, data[..k]);
      BytewiseOverlay(f, addr, data[..k]);
      OverlaySnoc(f, addr, data[..k], data[k]);
      assert data == data[..k] + [data[k]];
    }
  }

  lemma OverlayNothing(f: Image, addr: nat)
    ensures Overlay(f, addr, []) == f
  {
    hide Burn;
  }

  lemma OverlaySnoc(f: Image, addr: nat, data: seq<byte>, b: byte)
    ensures Overlay(Overlay(f, addr, data), addr + |data|, [b]) == Overlay(f, addr, data + [b])
  {
    hide Burn;
  }

  /** On blank cells programming stores the data. */
  lemma OverlayOnBlank(f: Image, addr: nat, data: seq<byte>)
    requires addr + |data| <= FLASH_SIZE
    requires forall i :: addr <= i < addr + |data| ==> f[i] == BLANK
    ensures Overlay(f, addr, data)[addr..addr + |data|] == data
    ensures forall i :: 0 <= i < FLASH_SIZE && !(addr <= i < addr + |data|) ==> Overlay(f, addr, data)[i] == f[i]
  {
    hide Burn;
    var g := Overlay(f, addr, data);
    var run := g[addr..addr + |data|];
    forall i | 0 <= i < |data| ensures run[i] == data[i] {
      assert f[addr + i] == BLANK;
      assert run[i] == g[addr + i] == Burn(f[addr + i], data[i]);
      BurnBlank(data[i]);
    }
  }

  /** A reset between two of the bytes leaves a shorter run of bytes. */
  lemma BytewisePrefix(f: Image, addr: nat, data: seq<byte>, k: nat)
    requires k <= |data|
    ensures ApplyAll(f, BytewiseOps(addr, data)[..k]) == Overlay(f, addr, data[..k])
  {
    assert BytewiseOps(addr, data)[..k] == BytewiseOps(addr, data[..k]);
    BytewiseOverlay(f, addr, data[..k]);
  }

  /** Sectors first .. first + n - 1, in ascending order. */
  function EraseOps(first: nat, n: nat): (ops: seq<FlashOp>)
    ensures |ops| == n
  {
    seq(n, i requires 0 <= i < n => Erase(first + i))
  }

  lemma {:induction false} EraseOpsPrefix(f: Image, first: nat, n: nat, k: nat)
    requires k <= n
    ensures ApplyAll(f, EraseOps(first, n)[..k]) == Erased(f, SectorStart(first), SectorStart(first + k))
  {
    var ops := EraseOps(first, n)[..k];
    if k == 0 {
      assert ops == [] && Erased(f, SectorStart(first), SectorStart(first)) == f;
    } else {
      assert ops[..k - 1] == EraseOps(first, n)[..k - 1];
      EraseOpsPrefix(f, first, n, k - 1);
      var mid := Erased(f, SectorStart(first), SectorStart(first + k - 1));
      assert ops[k - 1] == Erase(first + k - 1);
      assert SectorStart(first) <= SectorStart(first + k - 1) <= SectorStart(first + k);
      assert Apply(mid, ops[k - 1]) == Erased(f, SectorStart(first), SectorStart(first + k));
    }
  }

  /** The application region. */
  function App(f: Image): (a: seq<byte>)
    ensures |a| == FLASH_SIZE - APP_OFFSET
  {
    f[APP_OFFSET..]
  }

  /** The first word of the application's vector table: boot is gated on it. */
  function Entry(f: Image): (e: seq<byte>)
    ensures |e| == 4
  {
    f[APP_OFFSET..APP_OFFSET + 4]
  }

  const BLANK_WORD: seq<byte> := [0xFF, 0xFF, 0xFF, 0xFF]
  const ZERO_WORD: seq<byte> := [0, 0, 0, 0]

  /** The flash peripheral: its cells, and every command it has executed. */
  class Flash {
    const cells: array<byte>
    ghost var log: seq<FlashOp>

    ghost predicate Valid() reads this {
      cells.Length == FLASH_SIZE
    }

    ghost function Contents(): (f: Image)
      requires Valid()
      reads this, cells
    {
      cells[..]
    }

    constructor (image: array<byte>)
      requires image.Length == FLASH_SIZE
      ensures Valid() && cells == image && log == []
    {
      cells := image;
      log := [];
    }

    /** flash_erase_sector */
    method EraseSector(n: nat)
      requires Valid() && n < SECTORS
      modifies this, cells
      ensures Valid() && log == old(log) + [Erase(n)]
      ensures Contents() == Apply(old(Contents()), Erase(n))
    {
      forall i | SectorStart(n) <= i < SectorStart(n + 1) {
        cells[i] := BLANK;
      }
      log := log + [Erase(n)];
    }

    /** flash_program_byte, flash_program_half_word and flash_program_word, by the number of bytes */
    method ProgramCells(addr: nat, data: seq<byte>)
      requires Valid()
      modifies this, cells
      ensures Valid() && log == old(log) + [Program(addr, data)]
      ensures Contents() == Apply(old(Contents()), Program(addr, data))
    {
      hide Burn;
      forall i | addr <= i < addr + |data| && i < FLASH_SIZE {
        cells[i] := Burn(cells[i], data[i - addr]);
      }
      log := log + [Program(addr, data)];
    }
  }
}
