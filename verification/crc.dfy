/**
 The cyclic redundancy checks of src/shared/crc16.c and of the host script: shift registers fed one
 message bit at a time, most significant bit first, with a zero initial value.

 Register is the register after a message, for a generator of any width given by its low-order
 coefficients (the leading one is implied). The two C loops and the script's loop are proved to
 compute it; what it means, and which errors it catches, is proved in CrcTheory.
 */
module Crc {
  import opened Bytes

  /** One message bit: shift it in and, if a one falls out, add the generator. */
  function Shift(g: Bits, r: Bits, b: bool): (s: Bits)
    requires |r| == |g| > 0
    ensures |s| == |g|
  {
    if r[0] then Xor(r[1..] + [b], g) else r[1..] + [b]
  }

  function Register(g: Bits, m: Bits): (r: Bits)
    requires |g| > 0
    ensures |r| == |g|
  {
    if m == [] then Zeros(|g|) else Shift(g, Register(g, m[..|m| - 1]), m[|m| - 1])
  }

  /** x^16 + 0x8005 without its leading term. */
  const G16: Bits :=
    [ true, false, false, false, false, false, false, false,
      false, false, false, false, false, true, false, true ]

  /** 0xEDB88320 shifted down to its lowest non-zero coefficient: 0x76DC419, of degree 26. */
  const H27: Bits :=
    [ true, true, true, false, true, true, false, true, true, false, true, true, true, false, false,
      false, true, false, false, false, false, false, true, true, false, false, true ]

  /** x^32 + 0xEDB88320 without its leading term: the reflected constant of the usual CRC-32 used
      unreflected, so its low five coefficients are zero. */
  const G32: Bits := H27 + Zeros(5)

  predicate On16(r: bv16, i: nat)
    requires i < 16
  {
    Test16(r, Mask16(i))
  }

  function Bits16(r: bv16): (s: Bits)
    ensures |s| == 16
  {
    seq(16, i requires 0 <= i < 16 => On16(r, i))
  }

  predicate On32(r: bv32, i: nat)
    requires i < 32
  {
    Test32(r, Mask32(i))
  }

  function Bits32(r: bv32): (s: Bits)
    ensures |s| == 32
  {
    seq(32, i requires 0 <= i < 32 => On32(r, i))
  }

  // ----- one step of the C loops -----

  /** out <<= 1; out |= bit */
  function In16(r: bv16, b: bool): bv16 {
    (r << 1) | (if b then 1 else 0)
  }

  lemma In16Mask(r: bv16, b: bool, m: bv16)
    requires m & 1 == 0
    ensures Test16(In16(r, b), m) == Test16(r, m >> 1)
  {
  }

  lemma In16Low(r: bv16, b: bool)
    ensures Test16(In16(r, b), 1) == b
  {
  }

  lemma MaskEnds16()
    ensures Mask16(0) == 0x8000 && Mask16(15) == 1
  {
  }

  /** Each bit moves up by one place. */
  lemma OnIn16(r: bv16, b: bool, i: nat)
    requires i < 16
    ensures On16(In16(r, b), i) == if i < 15 then On16(r, i + 1) else b
  {
    hide In16, Test16, Mask16;
    Mask16Facts(i);
    MaskEnds16();
    if i < 15 {
      In16Mask(r, b, Mask16(i));
    } else {
      In16Low(r, b);
    }
  }

  lemma In16Bits(r: bv16, b: bool)
    ensures Bits16(In16(r, b)) == Bits16(r)[1..] + [b]
  {
    hide In16, On16;
    var s := Bits16(In16(r, b));
    forall i | 0 <= i < 16 ensures s[i] == (Bits16(r)[1..] + [b])[i] {
      OnIn16(r, b, i);
    }
  }

  /** bit_flag */
  predicate TopSet16(r: bv16) {
    r >> 15 != 0
  }

  function Reduced16(r: bv16, g: bv16): bv16 {
    r ^ g
  }

  lemma Top16(r: bv16)
    ensures Bits16(r)[0] == TopSet16(r)
  {
    MaskEnds16();
  }

  lemma XorMask16(r: bv16, g: bv16, m: bv16)
    requires m != 0 && m & (m - 1) == 0
    ensures ((r ^ g) & m != 0) == ((r & m != 0) != (g & m != 0))
  {
  }

  lemma XorBits16(s: bv16, g: bv16)
    ensures Bits16(s ^ g) == Xor(Bits16(s), Bits16(g))
  {
    forall i | 0 <= i < 16 ensures Bits16(s ^ g)[i] == (Bits16(s)[i] != Bits16(g)[i]) {
      Mask16Facts(i);
      XorMask16(s, g, Mask16(i));
    }
  }

  lemma ReducedBits16(s: bv16, g: bv16)
    ensures Bits16(Reduced16(s, g)) == Xor(Bits16(s), Bits16(g))
  {
    hide Bits16, Xor;
    XorBits16(s, g);
  }

  /** One pass of the C loop over out: test the top bit, shift the message bit in, reduce. */
  function Next16(r: bv16, b: bool, g: bv16): bv16 {
    if TopSet16(r) then Reduced16(In16(r, b), g) else In16(r, b)
  }

  lemma Step16(r: bv16, b: bool, g: bv16)
    ensures Bits16(Next16(r, b, g)) == Shift(Bits16(g), Bits16(r), b)
  {
    hide Bits16, In16, TopSet16, Reduced16;
    In16Bits(r, b);
    Top16(r);
    ReducedBits16(In16(r, b), g);
  }

  lemma BitRead16(data: seq<byte>, p: nat, k: nat, r: bv16, g: bv16, b: bool)
    requires p < |data| && k < 8 && b == BitAt(data[p], k)
    requires Bits16(r) == Register(Bits16(g), Prefix(data, p, k))
    ensures Bits16(Next16(r, b, g))
         == Register(Bits16(g), if k < 7 then Prefix(data, p, k + 1) else Prefix(data, p + 1, 0))
  {
    BitOfByte(data[p], k);
    PrefixStep(data, p, k);
    RegisterSnoc(Bits16(g), Prefix(data, p, k), b);
    Step16(r, b, g);
  }

  lemma Next16Definition(r: bv16, b: bool, g: bv16)
    ensures Next16(r, b, g) == if TopSet16(r) then Reduced16(In16(r, b), g) else In16(r, b)
  {
    hide In16, TopSet16, Reduced16;
  }

  lemma Start16(data: seq<byte>, g: Bits)
    requires |g| == 16
    ensures Bits16(0) == Register(g, Prefix(data, 0, 0))
  {
    assert Prefix(data, 0, 0) == [];
  }

  lemma Generator16()
    ensures Bits16(0x8005) == G16
  {
    forall i | 0 <= i < 16 ensures Bits16(0x8005)[i] == G16[i] {
    }
  }

  /** out <<= 1; out |= bit */
  function In32(r: bv32, b: bool): bv32 {
    (r << 1) | (if b then 1 else 0)
  }

  lemma In32Mask(r: bv32, b: bool, m: bv32)
    requires m & 1 == 0
    ensures Test32(In32(r, b), m) == Test32(r, m >> 1)
  {
  }

  lemma In32Low(r: bv32, b: bool)
    ensures Test32(In32(r, b), 1) == b
  {
  }

  lemma MaskEnds32()
    ensures Mask32(0) == 0x8000_0000 && Mask32(31) == 1
  {
  }

  /** Each bit moves up by one place. */
  lemma OnIn32(r: bv32, b: bool, i: nat)
    requires i < 32
    ensures On32(In32(r, b), i) == if i < 31 then On32(r, i + 1) else b
  {
    hide In32, Test32, Mask32;
    Mask32Facts(i);
    MaskEnds32();
    if i < 31 {
      In32Mask(r, b, Mask32(i));
    } else {
      In32Low(r, b);
    }
  }

  lemma In32Bits(r: bv32, b: bool)
    ensures Bits32(In32(r, b)) == Bits32(r)[1..] + [b]
  {
    hide In32, On32;
    var s := Bits32(In32(r, b));
    forall i | 0 <= i < 32 ensures s[i] == (Bits32(r)[1..] + [b])[i] {
      OnIn32(r, b, i);
    }
  }

  /** bit_flag */
  predicate TopSet32(r: bv32) {
    r >> 31 != 0
  }

  function Reduced32(r: bv32, g: bv32): bv32 {
    r ^ g
  }

  lemma Top32(r: bv32)
    ensures Bits32(r)[0] == TopSet32(r)
  {
    MaskEnds32();
  }

  lemma XorMask32(r: bv32, g: bv32, m: bv32)
    requires m != 0 && m & (m - 1) == 0
    ensures ((r ^ g) & m != 0) == ((r & m != 0) != (g & m != 0))
  {
  }

  lemma XorBits32(s: bv32, g: bv32)
    ensures Bits32(s ^ g) == Xor(Bits32(s), Bits32(g))
  {
    forall i | 0 <= i < 32 ensures Bits32(s ^ g)[i] == (Bits32(s)[i] != Bits32(g)[i]) {
      Mask32Facts(i);
      XorMask32(s, g, Mask32(i));
    }
  }

  lemma ReducedBits32(s: bv32, g: bv32)
    ensures Bits32(Reduced32(s, g)) == Xor(Bits32(s), Bits32(g))
  {
    hide Bits32, Xor;
    XorBits32(s, g);
  }

  /** One pass of the C loop over out: test the top bit, shift the message bit in, reduce. */
  function Next32(r: bv32, b: bool, g: bv32): bv32 {
    if TopSet32(r) then Reduced32(In32(r, b), g) else In32(r, b)
  }

  lemma Step32(r: bv32, b: bool, g: bv32)
    ensures Bits32(Next32(r, b, g)) == Shift(Bits32(g), Bits32(r), b)
  {
    hide Bits32, In32, TopSet32, Reduced32;
    In32Bits(r, b);
    Top32(r);
    ReducedBits32(In32(r, b), g);
  }

  lemma BitRead32(data: seq<byte>, p: nat, k: nat, r: bv32, g: bv32, b: bool)
    requires p < |data| && k < 8 && b == BitAt(data[p], k)
    requires Bits32(r) == Register(Bits32(g), Prefix(data, p, k))
    ensures Bits32(Next32(r, b, g))
         == Register(Bits32(g), if k < 7 then Prefix(data, p, k + 1) else Prefix(data, p + 1, 0))
  {
    BitOfByte(data[p], k);
    PrefixStep(data, p, k);
    RegisterSnoc(Bits32(g), Prefix(data, p, k), b);
    Step32(r, b, g);
  }

  lemma Next32Definition(r: bv32, b: bool, g: bv32)
    ensures Next32(r, b, g) == if TopSet32(r) then Reduced32(In32(r, b), g) else In32(r, b)
  {
    hide In32, TopSet32, Reduced32;
  }

  lemma Start32(data: seq<byte>, g: Bits)
    requires |g| == 32
    ensures Bits32(0) == Register(g, Prefix(data, 0, 0))
  {
    assert Prefix(data, 0, 0) == [];
  }

  lemma Generator32()
    ensures Bits32(0xEDB88320) == G32
  {
    forall i | 0 <= i < 32 ensures Bits32(0xEDB88320)[i] == G32[i] {
    }
  }

  /** (byte >> (7 - k)) & 1 */
  predicate BitAt(b: byte, k: nat)
    requires k < 8
  {
    (b >> (7 - k)) & 1 == 1
  }

  lemma BitOfByte(b: byte, k: nat)
    requires k < 8
    ensures BitAt(b, k) == ByteBits(b)[k]
  {
  }

  /** The message read so far, k bits into the byte at p. */
  function Prefix(data: seq<byte>, p: nat, k: nat): Bits
    requires p <= |data| && k <= 8 && (k > 0 ==> p < |data|)
  {
    BitsOf(data[..p]) + if k == 0 then [] else ByteBits(data[p])[..k]
  }

  lemma PrefixStep(data: seq<byte>, p: nat, k: nat)
    requires p < |data| && k < 8
    ensures Prefix(data, p, k + 1) == Prefix(data, p, k) + [ByteBits(data[p])[k]]
    ensures Prefix(data, p, 8) == Prefix(data, p + 1, 0)
  {
    assert ByteBits(data[p])[..k + 1] == (if k == 0 then [] else ByteBits(data[p])[..k]) + [ByteBits(data[p])[k]];
    assert data[..p + 1][..p] == data[..p];
    assert ByteBits(data[p])[..8] == ByteBits(data[p]);
  }

  lemma WholePrefix(data: seq<byte>, head: seq<byte>, n: nat)
    requires n <= |data| && head == data[..n]
    ensures Prefix(data, n, 0) == BitsOf(head)
  {
  }

  lemma RegisterSnoc(g: Bits, m: Bits, b: bool)
    requires |g| > 0
    ensures Register(g, m + [b]) == Shift(g, Register(g, m), b)
  {
    assert (m + [b])[..|m|] == m;
  }

  // ----- the loops of src/shared/crc16.c -----

  method Crc16Calculate(data: array?<byte>, length: nat) returns (out: bv16)
    requires data != null ==> length <= data.Length
    ensures data == null ==> out == 0
    ensures data != null ==> Bits16(out) == Register(G16, BitsOf(data[..length]))
  {
    out := 0;
    if data == null {
      return;
    }
    hide *;
    ghost var d, g := data[..], Bits16(0x8005);
    Start16(d, g);
    var bitsRead, p, size := 0, 0, length;
    while size > 0
      invariant 0 <= bitsRead <= 7 && p + size == length && (size == 0 ==> bitsRead == 0)
      invariant Bits16(out) == Register(g, Prefix(d, p, bitsRead))
      decreases size, 8 - bitsRead
    {
      var bit := BitAt(data[p], bitsRead);
      BitRead16(d, p, bitsRead, out, 0x8005, bit);
      Next16Definition(out, bit, 0x8005);
      var bitFlag := TopSet16(out);
      out := In16(out, bit);
      bitsRead := bitsRead + 1;
      if bitsRead > 7 {
        bitsRead := 0;
        p := p + 1;
        size := size - 1;
      }
      if bitFlag {
        out := Reduced16(out, 0x8005);
      }
    }
    Generator16();
    WholePrefix(d, data[..length], length);
  }

  method Crc32Calculate(data: array?<byte>, length: nat) returns (out: bv32)
    requires data != null ==> length <= data.Length
    ensures data == null ==> out == 0
    ensures data != null ==> Bits32(out) == Register(G32, BitsOf(data[..length]))
  {
    out := 0;
    if data == null {
      return;
    }
    hide *;
    ghost var d, g := data[..], Bits32(0xEDB88320);
    Start32(d, g);
    var bitsRead, p, size := 0, 0, length;
    while size > 0
      invariant 0 <= bitsRead <= 7 && p + size == length && (size == 0 ==> bitsRead == 0)
      invariant Bits32(out) == Register(g, Prefix(d, p, bitsRead))
      decreases size, 8 - bitsRead
    {
      var bit := BitAt(data[p], bitsRead);
      BitRead32(d, p, bitsRead, out, 0xEDB88320, bit);
      Next32Definition(out, bit, 0xEDB88320);
      var bitFlag := TopSet32(out);
      out := In32(out, bit);
      bitsRead := bitsRead + 1;
      if bitsRead > 7 {
        bitsRead := 0;
        p := p + 1;
        size := size - 1;
      }
      if bitFlag {
        out := Reduced32(out, 0xEDB88320);
      }
    }
    Generator32();
    WholePrefix(d, data[..length], length);
  }

  // ----- the loops of bootloader.py -----

  const POLY16: nat := 0x8005
  const POLY32: nat := 0xEDB88320

  /** One pass of the script's inner loop. Its accumulator is never cut back to w bits. */
  function HostShift(crc: nat, w: nat, poly: nat, bit: nat): nat
    requires w > 0
  {
    var shifted := 2 * crc + bit;
    if Shr(crc, w - 1) % 2 == 1 then NatXor(shifted, poly) else shifted
  }

  lemma HostShiftBits(crc: nat, w: nat, poly: nat, bit: nat)
    requires w > 0 && bit < 2
    ensures LowBits(HostShift(crc, w, poly, bit), w) == Shift(LowBits(poly, w), LowBits(crc, w), bit == 1)
  {
    LowBitsTop(crc, w);
    LowBitsAppend(crc, bit, w);
    LowBitsXor(2 * crc + bit, poly, w);
  }

  /**
   calculate_crc16 (w = 16) and calculate_crc32 (w = 32) of the script. The low w bits of the
   unbounded accumulator are the C register after every bit, and only they are returned.
   */
  method HostCrc(data: seq<byte>, w: nat, poly: nat) returns (crc: nat)
    requires w > 0
    ensures LowBits(crc, w) == Register(LowBits(poly, w), BitsOf(data))
    ensures crc == NatAnd(crc, Pow2(w) - 1)
  {
    crc := 0;
    LowBitsZero(w);
    ghost var g := LowBits(poly, w);
    for p := 0 to |data|
      invariant LowBits(crc, w) == Register(g, Prefix(data, p, 0))
    {
      var curByte := data[p];
      for i := 0 to 8
        invariant LowBits(crc, w) == Register(g, Prefix(data, p, i))
      {
        BitOfByte(curByte, i);
        PrefixStep(data, p, i);
        RegisterSnoc(g, Prefix(data, p, i), ByteBits(curByte)[i]);
        var bit := if BitAt(curByte, i) then 1 else 0;
        HostShiftBits(crc, w, poly, bit);
        crc := HostShift(crc, w, poly, bit);
      }
      PrefixStep(data, p, 0);
    }
    assert Prefix(data, |data|, 0) == BitsOf(data) by {
      assert data[..|data|] == data;
    }
    LowBitsMask(crc, w);
    NatAndIdempotent(crc, Pow2(w) - 1);
    crc := NatAnd(crc, Pow2(w) - 1);
  }

  lemma {:induction false} NatAndIdempotent(a: nat, b: nat)
    ensures NatAnd(NatAnd(a, b), b) == NatAnd(a, b)
    decreases a
  {
    if a > 0 && b > 0 {
      NatAndIdempotent(a / 2, b / 2);
      NatAndTwice(a, b, NatAnd(a, b));
    }
  }

  lemma NatAndTwice(a: nat, b: nat, c: nat)
    requires a > 0 && b > 0 && c == NatAnd(a, b)
    requires NatAnd(NatAnd(a / 2, b / 2), b / 2) == NatAnd(a / 2, b / 2)
    ensures NatAnd(c, b) == c
  {
    assert c / 2 == NatAnd(a / 2, b / 2);
  }

  lemma LowBitsOfBytes(high: nat, low: nat, w: nat)
    requires low < 0x100
    ensures LowBits(0x100 * high + low, w + 8) == LowBits(high, w) + ByteBits(low as byte)
  {
    hide LowBits, Shr, ByteBits;
    var n := 0x100 * high + low;
    assert n / 0x100 == high && n % 0x100 == low;
    LowBitsSplit(n, w, 8);
    LowBitsOfByte(low, 8);
    ShrByte(n);
    LowByte(n, low);
    assert ByteBits(low as byte)[0..] == ByteBits(low as byte);
  }

  lemma ShrByte(n: nat)
    ensures Shr(n, 8) == n / 0x100
  {
    calc {
      Shr(n, 8);
      Shr(n / 2, 7);
      Shr(n / 4, 6);
      Shr(n / 8, 5);
      Shr(n / 16, 4);
      Shr(n / 32, 3);
      Shr(n / 64, 2);
      Shr(n / 128, 1);
      n / 256;
    }
  }

  lemma LowByte(n: nat, low: nat)
    requires low == n % 0x100
    ensures LowBits(n, 8) == LowBits(low, 8)
  {
    LowBitsMask(n, 8);
    assert Pow2(8) == 0x100;
    MaskIsMod(n, 8);
  }

  /** The script's constants are the C code's. */
  lemma SameGenerators()
    ensures LowBits(POLY16, 16) == G16
    ensures LowBits(POLY32, 32) == G32
  {
    hide LowBits, ByteBits, Mask8, G16, G32;
    LowBitsOfBytes(0x80, 0x05, 8);
    LowBitsOfBytes(0, 0x80, 0);
    LowBitsOfBytes(0xEDB883, 0x20, 24);
    LowBitsOfBytes(0xEDB8, 0x83, 16);
    LowBitsOfBytes(0xED, 0xB8, 8);
    LowBitsOfBytes(0, 0xED, 0);
    GeneratorBytes();
  }

  lemma GeneratorBytes()
    ensures ByteBits(0x80) + ByteBits(0x05) == G16
    ensures ByteBits(0xED) + ByteBits(0xB8) + ByteBits(0x83) + ByteBits(0x20) == G32
  {
  }
}
