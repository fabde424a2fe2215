/** src/shared/flash-io.c: what the bootloader and the application do to the flash. */
module FlashIo {
  import opened Bytes
  import opened Memory

  /** sizeof(Parameters_t) and sizeof(FirmwareInfo_t) */
  const PARAMETERS_LENGTH: nat := 20
  const FIRMWARE_INFO_LENGTH: nat := 24

  /** The statics of the upload path: bytes written since reset, and the withheld vector-table word. */
  datatype Upload = Upload(written: nat, entry: seq<byte>)

  /** mainAppEntry = 0xFFFF, little endian. */
  const INITIAL_ENTRY: seq<byte> := [0xFF, 0xFF, 0, 0]

  const RESET_UPLOAD := Upload(0, INITIAL_ENTRY)

  /** The chunk as it is programmed: at the offset of the vector table its first word is blanked. */
  function Withheld(u: Upload, chunk: seq<byte>): (c: seq<byte>)
    requires |chunk| >= 4
    ensures |c| == |chunk|
  {
    if u.written == PARAMS_SIZE then BLANK_WORD + chunk[4..] else chunk
  }

  function WriteOps(u: Upload, chunk: seq<byte>, len: nat): (ops: seq<FlashOp>)
    requires 4 <= |chunk| && len <= |chunk|
    ensures |ops| == len
  {
    BytewiseOps(PARAMS_OFFSET + u.written, Withheld(u, chunk)[..len])
  }

  function AfterWrite(u: Upload, chunk: seq<byte>, len: nat): (u': Upload)
    requires 4 <= |chunk|
  {
    Upload(u.written + len, if u.written == PARAMS_SIZE then chunk[..4] else u.entry)
  }

  const PARTITION_ERASE: seq<FlashOp> := EraseOps(PARAMS_SECTOR, SECTORS - PARAMS_SECTOR)

  predicate Bootable(f: Image) {
    !(Entry(f) == BLANK_WORD || Entry(f) == ZERO_WORD)
  }

  function DeviceId(f: Image): (id: seq<byte>)
    ensures |id| == 4
  {
    f[FW_INFO_OFFSET + 4..FW_INFO_OFFSET + 8]
  }

  function CheckUpdateSize(size: seq<byte>): nat
    requires |size| == 4
  {
    if LittleEndian(size) > FW_CAPACITY then 0 else LittleEndian(size)
  }

  /** The parameters as flash_io_write_params leaves them. */
  function ParamsOps(data: seq<byte>): seq<FlashOp> {
    [Erase(PARAMS_SECTOR)] + BytewiseOps(PARAMS_OFFSET, data)
  }

  /** The flash and the statics of flash-io.c. */
  class FlashDriver {
    const flash: Flash
    var writtenBytesNo: nat
    var mainAppEntry: seq<byte>

    ghost predicate Valid() reads this, flash {
      flash.Valid() && |mainAppEntry| == 4
    }

    function State(): Upload reads this {
      Upload(writtenBytesNo, mainAppEntry)
    }

    constructor (memory: Flash)
      requires memory.Valid()
      ensures Valid() && flash == memory && State() == RESET_UPLOAD
    {
      flash := memory;
      writtenBytesNo := 0;
      mainAppEntry := INITIAL_ENTRY;
    }

    /** flash_io_read_params: the number of bytes copied to buffer[at..], or 0 */
    method ReadParams(buffer: array<byte>, at: nat, offset: nat, length: nat) returns (n: nat)
      requires Valid() && buffer != flash.cells && offset < 0x100 && length < 0x100
      requires at <= buffer.Length && (offset + length <= PARAMETERS_LENGTH ==> at + length <= buffer.Length)
      modifies buffer
      ensures n == if offset + length > PARAMETERS_LENGTH then 0 else length
      ensures buffer[..] == old(buffer[..at])
                          + flash.Contents()[PARAMS_OFFSET + offset..PARAMS_OFFSET + offset + n]
                          + old(buffer[at + n..])
    {
      if offset + length > PARAMETERS_LENGTH {
        assert buffer[..] == buffer[..at] + [] + buffer[at..];
        return 0;
      }
      forall i | 0 <= i < length {
        buffer[at + i] := flash.cells[PARAMS_OFFSET + offset + i];
      }
      n := length;
    }

    /** flash_io_read_fw_info */
    method ReadFwInfo(buffer: array<byte>, at: nat, offset: nat, length: nat) returns (n: nat)
      requires Valid() && buffer != flash.cells && offset < 0x100 && length < 0x100
      requires at <= buffer.Length && (offset + length <= FIRMWARE_INFO_LENGTH ==> at + length <= buffer.Length)
      modifies buffer
      ensures n == if offset + length > FIRMWARE_INFO_LENGTH then 0 else length
      ensures buffer[..] == old(buffer[..at])
                          + flash.Contents()[FW_INFO_OFFSET + offset..FW_INFO_OFFSET + offset + n]
                          + old(buffer[at + n..])
    {
      if offset + length > FIRMWARE_INFO_LENGTH {
        assert buffer[..] == buffer[..at] + [] + buffer[at..];
        return 0;
      }
      forall i | 0 <= i < length {
        buffer[at + i] := flash.cells[FW_INFO_OFFSET + offset + i];
      }
      n := length;
    }

    /** The byte loops of flash_io_write_params and flash_io_write_new_firmware. */
    method ProgramBytes(addr: nat, buffer: array<byte>, at: nat, length: nat)
      requires Valid() && at + length <= buffer.Length && buffer != flash.cells
      modifies flash, flash.cells
      ensures Valid()
      ensures flash.log == old(flash.log) + BytewiseOps(addr, buffer[at..at + length])
      ensures flash.Contents() == ApplyAll(old(flash.Contents()), BytewiseOps(addr, buffer[at..at + length]))
    {
      hide Apply;
      ghost var data := buffer[at..at + length];
      ghost var f, log, ops := flash.Contents(), flash.log, BytewiseOps(addr, data);
      var i := 0;
      while i < length
        invariant Valid() && 0 <= i <= length && buffer[at..at + length] == data
        invariant flash.log == log + ops[..i]
        invariant flash.Contents() == ApplyAll(f, ops[..i])
      {
        ghost var op := Program(addr + i, [buffer[at + i]]);
        assert buffer[at + i] == data[i] && ops[i] == op;
        ApplySnoc(f, ops[..i], op);
        assert ops[..i + 1] == ops[..i] + [op];
        flash.ProgramCells(addr + i, [buffer[at + i]]);
        i := i + 1;
      }
      assert ops[..length] == ops;
    }

    /** flash_io_write_params: the whole sector is erased first, so only offset 0 is accepted */
    method WriteParams(buffer: array<byte>, at: nat, offset: nat, length: nat) returns (n: nat)
      requires Valid() && at + length <= buffer.Length && buffer != flash.cells
      modifies flash, flash.cells
      ensures Valid()
      ensures n == if length == 0 || offset != 0 || offset + length > PARAMETERS_LENGTH then 0 else length
      ensures var ops := if n == 0 then [] else ParamsOps(buffer[at..at + length]);
              && flash.log == old(flash.log) + ops
              && flash.Contents() == ApplyAll(old(flash.Contents()), ops)
    {
      if length == 0 || offset != 0 {
        return 0;
      }
      if offset + length > PARAMETERS_LENGTH {
        return 0;
      }
      hide Apply, ApplyAll, BytewiseOps;
      ghost var f, data := flash.Contents(), buffer[at..at + length];
      flash.EraseSector(PARAMS_SECTOR);
      ApplyOne(f, Erase(PARAMS_SECTOR));
      ApplyAllConcat(f, [Erase(PARAMS_SECTOR)], BytewiseOps(PARAMS_OFFSET, data));
      ProgramBytes(PARAMS_OFFSET, buffer, at, length);
      n := length;
    }

    /** flash_io_check_dev_id */
    method CheckDevId(id: seq<byte>) returns (ok: bool)
      requires Valid() && |id| == 4
      ensures ok == (id == DeviceId(flash.Contents()))
    {
      ok := id == flash.cells[FW_INFO_OFFSET + 4..FW_INFO_OFFSET + 8];
      assert flash.cells[FW_INFO_OFFSET + 4..FW_INFO_OFFSET + 8] == DeviceId(flash.Contents());
    }

    /** flash_io_erase_fw_partition */
    method EraseFwPartition() returns (ok: bool)
      requires Valid()
      modifies flash, flash.cells
      ensures Valid() && ok
      ensures flash.log == old(flash.log) + PARTITION_ERASE
      ensures flash.Contents() == ApplyAll(old(flash.Contents()), PARTITION_ERASE)
    {
      hide Apply, ApplyAll, PARTITION_ERASE;
      ghost var f, log := flash.Contents(), flash.log;
      PartitionSize();
      NoErase(f);
      var i := 0;
      while i + PARAMS_SECTOR < 12
        invariant Valid() && 0 <= i <= 11
        invariant flash.log == log + PARTITION_ERASE[..i]
        invariant flash.Contents() == ApplyAll(f, PARTITION_ERASE[..i])
      {
        NextErase(f, i);
        flash.EraseSector(PARAMS_SECTOR + i);
        i := i + 1;
      }
      assert PARTITION_ERASE[..11] == PARTITION_ERASE;
      ok := true;
    }

    /**
     flash_io_write_new_firmware: chunk points at `at` in the packet buffer. At the offset of the vector
     table the first word is kept back and overwritten in the packet buffer itself.
     */
    method WriteNewFirmware(buffer: array<byte>, at: nat, len: nat) returns (n: nat)
      requires Valid() && buffer != flash.cells && len < 0x100
      requires at + 4 <= buffer.Length && at + len <= buffer.Length
      modifies this, flash, flash.cells, buffer
      ensures Valid() && n == len
      ensures var chunk := old(buffer[at..]);
              && State() == AfterWrite(old(State()), chunk, len)
              && flash.log == old(flash.log) + WriteOps(old(State()), chunk, len)
              && flash.Contents() == ApplyAll(old(flash.Contents()), WriteOps(old(State()), chunk, len))
              && buffer[..] == old(buffer[..at]) + Withheld(old(State()), chunk)
    {
      hide Apply, ApplyAll, BytewiseOps;
      ghost var u, chunk := State(), buffer[at..];
      if writtenBytesNo == PARAMS_SIZE {
        mainAppEntry := buffer[at..at + 4];
        buffer[at], buffer[at + 1], buffer[at + 2], buffer[at + 3] := 0xFF, 0xFF, 0xFF, 0xFF;
      }
      ghost var all := buffer[..];
      assert all == old(buffer[..at]) + Withheld(u, chunk);
      HeadOfTail(all, at, len, Withheld(u, chunk));
      ProgramBytes(PARAMS_OFFSET + writtenBytesNo, buffer, at, len);
      writtenBytesNo := writtenBytesNo + len;
      n := len;
    }

    /** flash_io_check_fw_integrity */
    method CheckFwIntegrity() returns (ok: bool)
      requires Valid()
      ensures ok == Bootable(flash.Contents())
    {
      var vecTableEntry := flash.cells[APP_OFFSET..APP_OFFSET + 4];
      assert vecTableEntry == Entry(flash.Contents());
      ok := !(vecTableEntry == BLANK_WORD || vecTableEntry == ZERO_WORD);
    }

    /** flash_io_write_main_entry */
    method WriteMainEntry()
      requires Valid()
      modifies flash, flash.cells
      ensures Valid()
      ensures flash.log == old(flash.log) + [Program(APP_OFFSET, mainAppEntry)]
      ensures flash.Contents() == ApplyAll(old(flash.Contents()), [Program(APP_OFFSET, mainAppEntry)])
    {
      hide Apply;
      ApplyOne(flash.Contents(), Program(APP_OFFSET, mainAppEntry));
      flash.ProgramCells(APP_OFFSET, mainAppEntry);
    }
  }

  lemma PartitionSize()
    ensures |PARTITION_ERASE| == 11
  {
  }

  lemma NoErase(f: Image)
    ensures PARTITION_ERASE[..0] == [] && ApplyAll(f, PARTITION_ERASE[..0]) == f
  {
  }

  lemma NextErase(f: Image, i: nat)
    requires i < 11
    ensures PARTITION_ERASE[..i + 1] == PARTITION_ERASE[..i] + [Erase(PARAMS_SECTOR + i)]
    ensures ApplyAll(f, PARTITION_ERASE[..i + 1]) == Apply(ApplyAll(f, PARTITION_ERASE[..i]), Erase(PARAMS_SECTOR + i))
  {
    hide Apply, ApplyAll;
    ApplySnoc(f, PARTITION_ERASE[..i], Erase(PARAMS_SECTOR + i));
  }

  lemma HeadOfTail(all: seq<byte>, at: nat, len: nat, tail: seq<byte>)
    requires at <= |all| && all[at..] == tail && len <= |tail|
    ensures all[at..at + len] == tail[..len]
  {
  }

  lemma ApplyOne(f: Image, op: FlashOp)
    ensures ApplyAll(f, [op]) == Apply(f, op)
  {
    assert [op][..0] == [];
    assert ApplyAll(f, []) == f;
  }

  lemma ApplySnoc(f: Image, ops: seq<FlashOp>, op: FlashOp)
    ensures ApplyAll(f, ops + [op]) == Apply(ApplyAll(f, ops), op)
  {
    assert (ops + [op])[..|ops|] == ops;
  }
}
