/**
 Frames (src/shared/protocol.h, src/shared/protocol.c and create_packet in bootloader.py):
 tag, length, data, then two check bytes, or four for a firmware chunk.
 */
module Protocol {
  import opened Bytes
  import opened Crc
  import opened CrcTheory

  const TAG_PR: byte := 0
  const TAG_PW: byte := 1
  const TAG_FIR: byte := 2
  const TAG_RST: byte := 3
  const TAG_ACK: byte := 4
  const TAG_NACK: byte := 5
  const TAG_SYNC_REQ: byte := 9
  const TAG_UPDATE_REQ: byte := 10
  const TAG_DEV_ID_CHECK: byte := 11
  const TAG_FW_UPDATE_SIZE: byte := 12
  const TAG_ERASE_REQ: byte := 13
  const TAG_FW_NEW: byte := 14
  const TAG_FW_REP: byte := 15
  const TAG_INVALID: byte := 16

  /** ProtocolPacketAttr_t */
  datatype Attr = Attr(tag: byte, offset: byte, length: byte)

  /** The longest frame a length byte can announce: header, 255 data bytes, four check bytes. */
  const SPAN: nat := 261

  /** The bytes a received packet is read from: its frame, then whatever lies behind it in memory. */
  type Packet = p: seq<byte> | |p| >= SPAN witness seq(SPAN, _ => 0)

  function ZeroBytes(n: nat): (z: seq<byte>)
    ensures |z| == n
  {
    seq(n, _ => 0)
  }

  function CheckLength(isFirmware: bool): nat {
    if isFirmware then 4 else 2
  }

  function Generator(isFirmware: bool): (g: Bits)
    ensures |g| == 8 * CheckLength(isFirmware)
  {
    if isFirmware then G32 else G16
  }

  // ----- bits back to bytes -----

  function PackBit(s: Bits, i: nat): byte
    requires |s| == 8 && i < 8
  {
    if s[i] then Mask8(i) else 0
  }

  function PackByte(s: Bits): byte
    requires |s| == 8
  {
    PackBit(s, 0) | PackBit(s, 1) | PackBit(s, 2) | PackBit(s, 3)
    | PackBit(s, 4) | PackBit(s, 5) | PackBit(s, 6) | PackBit(s, 7)
  }

  function Pack(s: Bits): (b: seq<byte>)
    requires |s| % 8 == 0
    ensures |b| == |s| / 8
  {
    if s == [] then [] else Pack(s[..|s| - 8]) + [PackByte(s[|s| - 8..])]
  }

  lemma PackByteBits(s: Bits)
    requires |s| == 8
    ensures ByteBits(PackByte(s)) == s
  {
    forall i | 0 <= i < 8 ensures ByteBits(PackByte(s))[i] == s[i] {
      PackMask(PackBit(s, 0), PackBit(s, 1), PackBit(s, 2), PackBit(s, 3),
               PackBit(s, 4), PackBit(s, 5), PackBit(s, 6), PackBit(s, 7));
    }
  }

  lemma PackMask(b0: byte, b1: byte, b2: byte, b3: byte, b4: byte, b5: byte, b6: byte, b7: byte)
    requires b0 & 0x7F == 0 && b1 & 0xBF == 0 && b2 & 0xDF == 0 && b3 & 0xEF == 0
    requires b4 & 0xF7 == 0 && b5 & 0xFB == 0 && b6 & 0xFD == 0 && b7 & 0xFE == 0
    ensures var b := b0 | b1 | b2 | b3 | b4 | b5 | b6 | b7;
            && b & 0x80 == b0 && b & 0x40 == b1 && b & 0x20 == b2 && b & 0x10 == b3
            && b & 0x08 == b4 && b & 0x04 == b5 && b & 0x02 == b6 && b & 0x01 == b7
  {
  }

  lemma NoBytes()
    ensures BitsOf([]) == []
  {
  }

  lemma {:induction false} PackBits(s: Bits)
    requires |s| % 8 == 0
    ensures BitsOf(Pack(s)) == s
  {
    hide PackByte, ByteBits, BitsOf;
    if s == [] {
      assert BitsOf([]) == [] by { NoBytes(); }
    } else {
      var n := |s| - 8;
      PackBits(s[..n]);
      PackByteBits(s[n..]);
      BitsOfConcat(Pack(s[..n]), [PackByte(s[n..])]);
      BitsOfSingle(PackByte(s[n..]));
      assert s == s[..n] + s[n..];
    }
  }

  // ----- frames -----

  function Header(tag: byte, data: seq<byte>): (h: seq<byte>)
    requires |data| < 0x100
    ensures |h| == 2
  {
    [tag, |data| as byte]
  }

  /** The check bytes: the remainder of the frame with those bytes zeroed. */
  function Check(tag: byte, data: seq<byte>, isFirmware: bool): (c: seq<byte>)
    requires |data| < 0x100
    ensures |c| == CheckLength(isFirmware)
  {
    Pack(Register(Generator(isFirmware), BitsOf(Header(tag, data) + data + ZeroBytes(CheckLength(isFirmware)))))
  }

  function Frame(tag: byte, data: seq<byte>, isFirmware: bool): (f: seq<byte>)
    requires |data| < 0x100
    ensures |f| == 2 + |data| + CheckLength(isFirmware)
  {
    Header(tag, data) + data + Check(tag, data, isFirmware)
  }

  predicate Valid(p: seq<byte>, isFirmware: bool)
    requires |p| >= 2 && |p| >= (p[1] as nat) + 2 + CheckLength(isFirmware)
  {
    AllZero(Register(Generator(isFirmware), BitsOf(p[..(p[1] as nat) + 2 + CheckLength(isFirmware)])))
  }

  /** protocol_extract_packet_attr */
  function Extract(p: Packet, isFirmware: bool): Attr {
    if !Valid(p, isFirmware) then Attr(TAG_INVALID, 0, 0)
    else if isFirmware then Attr(p[0], 0, p[1])
    else if p[0] == TAG_PW then Attr(p[0], 0, p[1])
    else Attr(p[0], p[2], p[3])
  }

  lemma {:induction false} BitsOfZeros(n: nat)
    ensures BitsOf(ZeroBytes(n)) == Zeros(8 * n)
  {
    if n > 0 {
      assert ZeroBytes(n)[..n - 1] == ZeroBytes(n - 1);
      BitsOfZeros(n - 1);
      assert ByteBits(0) == Zeros(8);
    }
  }

  /** Replacing zeroed check bits by the remainder makes the remainder zero. */
  lemma AppendedCheck(g: Bits, x: Bits)
    requires |g| > 0
    ensures Register(g, x + Register(g, x + Zeros(|g|))) == Zeros(|g|)
  {
    hide Register;
    var c := Register(g, x + Zeros(|g|));
    RegisterXor(g, x + Zeros(|g|), Zeros(|x|) + c);
    XorHalves(x, c);
    RegisterShort(g, |x|, c);
    assert Zeros(0) + c == c;
  }

  lemma XorHalves(x: Bits, c: Bits)
    ensures Xor(x + Zeros(|c|), Zeros(|x|) + c) == x + c
    ensures Xor(c, c) == Zeros(|c|)
  {
  }

  lemma FrameValid(tag: byte, data: seq<byte>, isFirmware: bool)
    requires |data| < 0x100
    ensures AllZero(Register(Generator(isFirmware), BitsOf(Frame(tag, data, isFirmware))))
  {
    hide Register, Pack;
    var g, n := Generator(isFirmware), CheckLength(isFirmware);
    var body: seq<byte> := Header(tag, data) + data;
    var z := ZeroBytes(n);
    var c := Register(g, BitsOf(body + z));
    BitsOfConcat(body, z);
    BitsOfZeros(n);
    BitsOfConcat(body, Pack(c));
    PackBits(c);
    AppendedCheck(g, BitsOf(body));
  }

  /** A frame passes the check if and only if its bits are a multiple of the generator polynomial. */
  lemma ValidIffMultiple(f: seq<byte>, isFirmware: bool)
    requires |f| >= 2 && |f| == (f[1] as nat) + 2 + CheckLength(isFirmware)
    ensures var g := Generator(isFirmware);
      Valid(f, isFirmware) <==> exists q: Bits :: |q| == 8 * |f| && Zeros(|g|) + BitsOf(f) == Product(g, q)
  {
    hide Register, Product, Generator, AllZero, IsRemainder;
    var g, m := Generator(isFirmware), BitsOf(f);
    assert f[..|f|] == f;
    RemainderIff(g, m, Zeros(|g|));
    ZeroIsAllZero(Register(g, m));
    forall q: Bits ensures IsRemainder(g, m, q, Zeros(|g|)) <==> |q| == |m| && Zeros(|g|) + m == Product(g, q) {
      ExactDivision(g, m, q);
    }
  }

  lemma ZeroIsAllZero(r: Bits)
    ensures AllZero(r) <==> r == Zeros(|r|)
  {
  }

  lemma ExactDivision(g: Bits, m: Bits, q: Bits)
    ensures IsRemainder(g, m, q, Zeros(|g|)) <==> |q| == |m| && Zeros(|g|) + m == Product(g, q)
  {
    hide Product;
    if |q| == |m| {
      assert Zeros(|m|) + Zeros(|g|) == Zeros(|m| + |g|);
      assert Xor(Product(g, q), Zeros(|m| + |g|)) == Product(g, q);
    }
  }

  /** A frame is accepted, with its tag and length or its two leading bytes, whatever follows it. */
  lemma FrameRoundTrip(tag: byte, data: seq<byte>, isFirmware: bool, p: Packet)
    requires |data| < 0x100
    requires Frame(tag, data, isFirmware) <= p
    ensures Valid(p, isFirmware)
    ensures p[1] as nat == |data| && p[2..2 + |data|] == data
    ensures Extract(p, isFirmware) ==
            if isFirmware || tag == TAG_PW then Attr(tag, 0, |data| as byte)
            else if |data| >= 2 then Attr(tag, data[0], data[1])
            else Attr(tag, p[2], p[3])
  {
    hide Register, Pack;
    var f := Frame(tag, data, isFirmware);
    FrameValid(tag, data, isFirmware);
    ByteValue(|data|);
    assert p[..|f|] == f;
    assert f[0] == tag && f[1] == |data| as byte && f[2..2 + |data|] == data;
    assert p[0] == f[0] && p[1] == f[1];
    assert p[2..2 + |data|] == f[2..2 + |data|];
    if |data| >= 2 {
      assert p[2] == f[2..2 + |data|][0] && p[3] == f[2..2 + |data|][1];
    }
  }

  // ----- error detection -----

  /** The bits in which two equally long byte sequences differ. */
  function Difference(a: seq<byte>, b: seq<byte>): Bits
    requires |a| == |b|
  {
    Xor(BitsOf(a), BitsOf(b))
  }

  /** f is a frame exactly as long as its length byte says. */
  ghost predicate Exact(f: seq<byte>, isFirmware: bool) {
    |f| >= 2 && |f| == (f[1] as nat) + 2 + CheckLength(isFirmware)
  }

  lemma ValidIffDifference(f: seq<byte>, r: seq<byte>, isFirmware: bool)
    requires Exact(f, isFirmware) && Valid(f, isFirmware)
    requires |r| == |f| && r[1] == f[1]
    ensures Valid(r, isFirmware) <==> AllZero(Register(Generator(isFirmware), Difference(f, r)))
  {
    hide Register;
    var g := Generator(isFirmware);
    assert f[..|f|] == f && r[..|f|] == r;
    RegisterXor(g, BitsOf(f), BitsOf(r));
    var x, y := Register(g, BitsOf(f)), Register(g, BitsOf(r));
    assert Xor(x, y) == y;
  }

  lemma SameIffNoDifference(f: seq<byte>, r: seq<byte>)
    requires |r| == |f|
    ensures f == r <==> AllZero(Difference(f, r))
  {
    var d := Difference(f, r);
    if AllZero(d) {
      var x, y := BitsOf(f), BitsOf(r);
      forall i | 0 <= i < |x| ensures x[i] == y[i] { assert !d[i]; }
      BitsOfInjective(f, r);
    }
  }

  lemma NoDifferenceIffNoBurst(f: seq<byte>, r: seq<byte>, a: nat, b: Bits, c: nat)
    requires |r| == |f| && Difference(f, r) == Zeros(a) + b + Zeros(c)
    ensures f == r <==> AllZero(b)
  {
    hide AllZero;
    SameIffNoDifference(f, r);
    SplitZero(Zeros(a) + b, Zeros(c));
    SplitZero(Zeros(a), b);
    ZerosAllZero(a);
    ZerosAllZero(c);
  }

  /**
   A firmware frame received with all its errors inside 28 consecutive bits, the length byte intact, is
   accepted exactly when it is the frame sent or differs by the one bad pattern, five bits or more
   before its end. So every burst of up to 27 bits is rejected.
   */
  lemma Crc32BurstDetection(f: seq<byte>, r: seq<byte>, a: nat, b: Bits, c: nat)
    requires Exact(f, true) && Valid(f, true)
    requires |r| == |f| && r[1] == f[1]
    requires Difference(f, r) == Zeros(a) + b + Zeros(c) && |b| <= 28
    ensures Valid(r, true) <==> r == f || (b == [true] + H27 && c >= 5)
  {
    hide Register, AllZero;
    ValidIffDifference(f, r, true);
    Burst32Iff(a, b, c);
    NoDifferenceIffNoBurst(f, r, a, b, c);
  }

  /** The same for the two check bytes of the other frames: bursts of up to 16 bits are rejected. */
  lemma Crc16BurstDetection(f: seq<byte>, r: seq<byte>, a: nat, b: Bits, c: nat)
    requires Exact(f, false) && Valid(f, false)
    requires |r| == |f| && r[1] == f[1]
    requires Difference(f, r) == Zeros(a) + b + Zeros(c) && |b| <= 17
    ensures Valid(r, false) <==> r == f || b == [true] + G16
  {
    hide Register, AllZero;
    ValidIffDifference(f, r, false);
    Burst16Iff(a, b, c);
    NoDifferenceIffNoBurst(f, r, a, b, c);
  }

  /** Any odd number of flipped bits is rejected by the two check bytes. */
  lemma Crc16OddDetection(f: seq<byte>, r: seq<byte>)
    requires Exact(f, false) && Valid(f, false)
    requires |r| == |f| && r[1] == f[1]
    requires Parity(Difference(f, r))
    ensures !Valid(r, false)
  {
    hide Register;
    ValidIffDifference(f, r, false);
    OddGenerator16();
    ParityKept(G16, Difference(f, r));
    var s := Register(G16, Difference(f, r));
    if AllZero(s) {
      assert s == Zeros(16);
      ParityZeros(16);
    }
  }

  /** 27 is tight: from bit 16 on, up to five bits before the end, a 28-bit burst passes in any frame. */
  lemma Crc32BurstPasses(f: seq<byte>, a: nat) returns (r: seq<byte>)
    requires Exact(f, true) && Valid(f, true)
    requires 16 <= a && a + 28 + 5 <= 8 * |f|
    ensures |r| == |f| && r != f && r[..2] == f[..2]
    ensures Difference(f, r) == Zeros(a) + ([true] + H27) + Zeros(8 * |f| - a - 28)
    ensures Valid(r, true)
  {
    hide Register, BitsOf, Pack, Valid, Difference, AllZero;
    var b := [true] + H27;
    var c := 8 * |f| - a - 28;
    r := Corrupted(f, a, b, c);
    Crc32BurstDetection(f, r, a, b, c);
    NoDifferenceIffNoBurst(f, r, a, b, c);
    NonZero(b);
  }

  lemma NonZero(b: Bits)
    requires |b| > 0 && b[0]
    ensures !AllZero(b)
  {
  }

  lemma Corrupted(f: seq<byte>, a: nat, b: Bits, c: nat) returns (r: seq<byte>)
    requires |f| >= 2 && a >= 16 && a + |b| + c == 8 * |f|
    ensures |r| == |f| && r[..2] == f[..2] && Difference(f, r) == Zeros(a) + b + Zeros(c)
  {
    hide BitsOf, Pack;
    var e := Zeros(a) + b + Zeros(c);
    var x := BitsOf(f);
    r := Pack(Xor(x, e));
    PackBits(Xor(x, e));
    assert Xor(x, Xor(x, e)) == e;
    SamePrefix(f, r, a);
  }

  lemma SamePrefix(f: seq<byte>, r: seq<byte>, a: nat)
    requires |r| == |f| >= 2 && a >= 16 && a <= 8 * |f|
    requires forall i :: 0 <= i < a ==> BitsOf(f)[i] == BitsOf(r)[i]
    ensures r[..2] == f[..2]
  {
    assert f == f[..2] + f[2..] && r == r[..2] + r[2..];
    BitsOfConcat(f[..2], f[2..]);
    BitsOfConcat(r[..2], r[2..]);
    assert BitsOf(f[..2]) == BitsOf(f)[..16] == BitsOf(r)[..16] == BitsOf(r[..2]);
    BitsOfInjective(f[..2], r[..2]);
  }

  // ----- damaged frames -----

  /** All differences lie within w bits from the a-th on. */
  predicate Confined(d: Bits, a: nat, w: nat) {
    forall i :: 0 <= i < |d| && d[i] ==> a <= i < a + w
  }

  /** The bursts that the check bytes of a frame catch. */
  function BurstBound(isFirmware: bool): nat {
    if isFirmware then 27 else 16
  }

  /** r is f, its length byte intact, with a short burst of errors or, but for firmware, an odd number of them. */
  predicate Damaged(f: seq<byte>, r: seq<byte>, isFirmware: bool) {
    && |r| == |f| >= 2 && r[1] == f[1] && r != f
    && ((!isFirmware && Parity(Difference(f, r)))
        || exists a: nat | a <= 8 * |f| :: Confined(Difference(f, r), a, BurstBound(isFirmware)))
  }

  lemma Burst(d: Bits, a: nat, w: nat) returns (b: Bits)
    requires a <= |d| && Confined(d, a, w)
    ensures |b| <= w && a + |b| <= |d| && d == Zeros(a) + b + Zeros(|d| - a - |b|)
  {
    var n := if a + w <= |d| then w else |d| - a;
    b := d[a..a + n];
    var e := Zeros(a) + b + Zeros(|d| - a - n);
    forall i | 0 <= i < |d| ensures d[i] == e[i] {
    }
  }

  /** Such damage is always noticed. */
  lemma DamagedInvalid(f: seq<byte>, r: seq<byte>, isFirmware: bool)
    requires Exact(f, isFirmware) && Valid(f, isFirmware) && Damaged(f, r, isFirmware)
    ensures !Valid(r, isFirmware)
  {
    hide Valid, Difference, Parity;
    if !isFirmware && Parity(Difference(f, r)) {
      Crc16OddDetection(f, r);
    } else {
      var d := Difference(f, r);
      var a: nat :| a <= 8 * |f| && Confined(d, a, BurstBound(isFirmware));
      DifferenceLength(f, r);
      var b := Burst(d, a, BurstBound(isFirmware));
      if isFirmware {
        Crc32BurstDetection(f, r, a, b, |d| - a - |b|);
      } else {
        Crc16BurstDetection(f, r, a, b, |d| - a - |b|);
      }
    }
  }

  lemma DifferenceLength(f: seq<byte>, r: seq<byte>)
    requires |f| == |r|
    ensures |Difference(f, r)| == 8 * |f|
  {
  }

  /** What extraction makes of any packet: the tag stands for the check, and the rest is where the form puts it. */
  lemma ExtractIff(p: Packet, isFirmware: bool)
    ensures var attr := Extract(p, isFirmware);
      && (attr.tag == TAG_INVALID <==> !Valid(p, isFirmware) || p[0] == TAG_INVALID)
      && (attr.tag != TAG_INVALID ==>
            && attr.tag == p[0]
            && (isFirmware || p[0] == TAG_PW ==> attr.offset == 0 && attr.length == p[1])
            && (!isFirmware && p[0] != TAG_PW ==> attr.offset == p[2] && attr.length == p[3]))
  {
    hide Valid;
  }

  /** A frame of any content, damaged on its way, is extracted with the invalid tag. */
  lemma DamagedFrameRefused(tag: byte, data: seq<byte>, isFirmware: bool, r: seq<byte>, p: Packet)
    requires |data| < 0x100 && Damaged(Frame(tag, data, isFirmware), r, isFirmware) && r <= p
    ensures Extract(p, isFirmware).tag == TAG_INVALID
  {
    hide Damaged, Frame, Valid, Extract;
    var f := Frame(tag, data, isFirmware);
    var rest: seq<byte> := seq(SPAN, _ => 0);
    FrameRoundTrip(tag, data, isFirmware, f + rest);
    assert (f + rest)[1] == f[1];
    ValidPrefix(f, f + rest, isFirmware);
    DamagedShape(f, r, isFirmware);
    DamagedInvalid(f, r, isFirmware);
    ValidPrefix(r, p, isFirmware);
    ExtractIff(p, isFirmware);
  }

  lemma DamagedShape(f: seq<byte>, r: seq<byte>, isFirmware: bool)
    requires Damaged(f, r, isFirmware)
    ensures |r| == |f| >= 2 && r[1] == f[1] && (Exact(f, isFirmware) ==> Exact(r, isFirmware))
  {
    hide Difference, Parity, Confined;
  }

  lemma ValidPrefix(f: seq<byte>, p: Packet, isFirmware: bool)
    requires Exact(f, isFirmware) && f <= p
    ensures Valid(f, isFirmware) <==> Valid(p, isFirmware)
  {
    hide Register;
    assert f[..|f|] == f && p[..|f|] == f;
  }

  // ----- registers as bytes -----

  predicate Halves16(c: bv16, hi: bv8, lo: bv8) {
    hi == ((c >> 8) & 0xFF) as bv8 && lo == (c & 0xFF) as bv8
  }

  predicate MaskPair16(m: bv8, high: bv16, low: bv16) {
    high == (m as bv16) << 8 && low == m as bv16
  }

  lemma MasksPaired16(i: nat)
    requires i < 8
    ensures MaskPair16(Mask8(i), Mask16(i), Mask16(i + 8))
  {
  }

  lemma MaskHalves16(c: bv16, hi: bv8, lo: bv8, m: bv8, high: bv16, low: bv16)
    requires Halves16(c, hi, lo) && MaskPair16(m, high, low)
    ensures Test8(hi, m) == Test16(c, high)
    ensures Test8(lo, m) == Test16(c, low)
  {
  }

  lemma OnHigh16(c: bv16, hi: bv8, lo: bv8, i: nat)
    requires Halves16(c, hi, lo) && i < 8
    ensures On16(c, i) == On8(hi, i)
  {
    hide Halves16, MaskPair16, Mask8, Mask16, Test8, Test16;
    MasksPaired16(i);
    MaskHalves16(c, hi, lo, Mask8(i), Mask16(i), Mask16(i + 8));
  }

  lemma OnLow16(c: bv16, hi: bv8, lo: bv8, i: nat)
    requires Halves16(c, hi, lo) && i < 8
    ensures On16(c, i + 8) == On8(lo, i)
  {
    hide Halves16, MaskPair16, Mask8, Mask16, Test8, Test16;
    MasksPaired16(i);
    MaskHalves16(c, hi, lo, Mask8(i), Mask16(i), Mask16(i + 8));
  }

  lemma Bits16Bytes(c: bv16, hi: bv8, lo: bv8)
    requires Halves16(c, hi, lo)
    ensures Bits16(c) == ByteBits(hi) + ByteBits(lo)
  {
    hide Halves16, On8, On16, ByteBits, Bits16;
    forall i | 0 <= i < 8
      ensures On16(c, i) == On8(hi, i) && On16(c, i + 8) == On8(lo, i)
    {
      OnHigh16(c, hi, lo, i);
      OnLow16(c, hi, lo, i);
    }
    HalvesOf16(c, hi, lo);
  }

  lemma HalvesOf16(c: bv16, hi: bv8, lo: bv8)
    requires forall i :: 0 <= i < 8 ==> On16(c, i) == On8(hi, i) && On16(c, i + 8) == On8(lo, i)
    ensures Bits16(c) == ByteBits(hi) + ByteBits(lo)
  {
    hide On8, On16;
    forall i | 0 <= i < 16 ensures Bits16(c)[i] == (ByteBits(hi) + ByteBits(lo))[i] {
      if i >= 8 {
        assert On16(c, (i - 8) + 8) == On8(lo, i - 8);
      }
    }
  }

  predicate Halves32(c: bv32, hi: bv16, lo: bv16) {
    hi == ((c >> 16) & 0xFFFF) as bv16 && lo == (c & 0xFFFF) as bv16
  }

  predicate MaskPair32(m: bv16, high: bv32, low: bv32) {
    high == (m as bv32) << 16 && low == m as bv32
  }

  lemma MasksPaired32(i: nat)
    requires i < 16
    ensures MaskPair32(Mask16(i), Mask32(i), Mask32(i + 16))
  {
  }

  lemma MaskHalves32(c: bv32, hi: bv16, lo: bv16, m: bv16, high: bv32, low: bv32)
    requires Halves32(c, hi, lo) && MaskPair32(m, high, low)
    ensures Test16(hi, m) == Test32(c, high)
    ensures Test16(lo, m) == Test32(c, low)
  {
  }

  lemma OnHigh32(c: bv32, hi: bv16, lo: bv16, i: nat)
    requires Halves32(c, hi, lo) && i < 16
    ensures On32(c, i) == On16(hi, i)
  {
    hide Halves32, MaskPair32, Mask16, Mask32, Test16, Test32;
    MasksPaired32(i);
    MaskHalves32(c, hi, lo, Mask16(i), Mask32(i), Mask32(i + 16));
  }

  lemma OnLow32(c: bv32, hi: bv16, lo: bv16, i: nat)
    requires Halves32(c, hi, lo) && i < 16
    ensures On32(c, i + 16) == On16(lo, i)
  {
    hide Halves32, MaskPair32, Mask16, Mask32, Test16, Test32;
    MasksPaired32(i);
    MaskHalves32(c, hi, lo, Mask16(i), Mask32(i), Mask32(i + 16));
  }

  lemma Bits32Halves(c: bv32, hi: bv16, lo: bv16)
    requires Halves32(c, hi, lo)
    ensures Bits32(c) == Bits16(hi) + Bits16(lo)
  {
    hide Halves32, On16, On32, Bits16, Bits32;
    forall i | 0 <= i < 16
      ensures On32(c, i) == On16(hi, i) && On32(c, i + 16) == On16(lo, i)
    {
      OnHigh32(c, hi, lo, i);
      OnLow32(c, hi, lo, i);
    }
    HalvesOf32(c, hi, lo);
  }

  lemma HalvesOf32(c: bv32, hi: bv16, lo: bv16)
    requires forall i :: 0 <= i < 16 ==> On32(c, i) == On16(hi, i) && On32(c, i + 16) == On16(lo, i)
    ensures Bits32(c) == Bits16(hi) + Bits16(lo)
  {
    hide On16, On32;
    forall i | 0 <= i < 32 ensures Bits32(c)[i] == (Bits16(hi) + Bits16(lo))[i] {
      if i >= 16 {
        assert On32(c, (i - 16) + 16) == On16(lo, i - 16);
      }
    }
  }

  lemma ZeroByte(b: byte)
    ensures b == 0 <==> AllZero(ByteBits(b))
  {
    if AllZero(ByteBits(b)) {
      assert ByteBits(b) == ByteBits(0);
      ByteBitsInjective(b, 0);
    }
  }

  lemma ZeroRegister16(c: bv16)
    ensures c == 0 <==> AllZero(Bits16(c))
  {
    hide AllZero, Bits16, ByteBits;
    var hi, lo := ((c >> 8) & 0xFF) as bv8, (c & 0xFF) as bv8;
    Bits16Bytes(c, hi, lo);
    SplitZero(ByteBits(hi), ByteBits(lo));
    ZeroByte(hi);
    ZeroByte(lo);
  }

  lemma ZeroRegister32(c: bv32)
    ensures c == 0 <==> AllZero(Bits32(c))
  {
    hide AllZero, Bits16, Bits32;
    var hi, lo := ((c >> 16) & 0xFFFF) as bv16, (c & 0xFFFF) as bv16;
    Bits32Halves(c, hi, lo);
    SplitZero(Bits16(hi), Bits16(lo));
    ZeroRegister16(hi);
    ZeroRegister16(lo);
  }

  lemma PackTwo(hi: byte, lo: byte)
    ensures Pack(ByteBits(hi) + ByteBits(lo)) == [hi, lo]
  {
    var s := ByteBits(hi) + ByteBits(lo);
    PackBits(s);
    BitsOfConcat([hi], [lo]);
    BitsOfSingle(hi);
    BitsOfSingle(lo);
    BitsOfInjective(Pack(s), [hi] + [lo]);
  }

  // ----- the C functions -----

  lemma ZeroSlots(tag: byte, data: seq<byte>)
    requires |data| < 0x100
    ensures [tag, |data| as byte] + data + [0, 0] == Header(tag, data) + data + ZeroBytes(2)
    ensures [0, 0] == ZeroBytes(2)
    ensures [tag, |data| as byte] + data + [0, 0, 0, 0] == Header(tag, data) + data + ZeroBytes(4)
  {
  }

  /** A buffer with the header and two check bytes put around its data. */
  function Framed(b: seq<byte>, tag: byte, length: nat, hi: byte, lo: byte): (f: seq<byte>)
    requires length < 0x100 && length + 4 <= |b|
    ensures |f| == |b|
  {
    b[0 := tag][1 := length as byte][length + 2 := hi][length + 3 := lo]
  }

  lemma Layout(b: seq<byte>, tag: byte, length: nat, hi: byte, lo: byte)
    requires length < 0x100 && length + 4 <= |b|
    ensures var f, data := Framed(b, tag, length, hi, lo), b[2..2 + length];
      f[..length + 4] == Header(tag, data) + data + [hi, lo] && f[length + 4..] == b[length + 4..]
  {
    var f, data := Framed(b, tag, length, hi, lo), b[2..2 + length];
    var g := f[..length + 4];
    ThreeParts(g, 2, 2 + length);
    assert g[..2] == Header(tag, data);
    assert g[2..2 + length] == data;
    assert g[2 + length..] == [hi, lo];
  }

  /** (crcVal >> 8) & 0xFF */
  function HighHalf(crcVal: bv16): bv8 {
    ((crcVal >> 8) & 0xFF) as bv8
  }

  /** crcVal & 0xFF */
  function LowHalf(crcVal: bv16): bv8 {
    (crcVal & 0xFF) as bv8
  }

  lemma HalvesHold(crcVal: bv16)
    ensures Halves16(crcVal, HighHalf(crcVal), LowHalf(crcVal))
  {
  }

  lemma PackRegister(crcVal: bv16)
    ensures Pack(Bits16(crcVal)) == [HighHalf(crcVal), LowHalf(crcVal)]
  {
    hide Pack, Bits16, ByteBits, HighHalf, LowHalf, Halves16;
    HalvesHold(crcVal);
    Bits16Bytes(crcVal, HighHalf(crcVal), LowHalf(crcVal));
    PackTwo(HighHalf(crcVal), LowHalf(crcVal));
  }

  lemma FrameFromRegister(tag: byte, data: seq<byte>, r: Bits, check: seq<byte>)
    requires |data| < 0x100
    requires r == Register(G16, BitsOf(Header(tag, data) + data + ZeroBytes(2)))
    requires |r| % 8 == 0 && Pack(r) == check
    ensures Frame(tag, data, false) == Header(tag, data) + data + check
  {
    hide Register, Pack, BitsOf, ZeroBytes, Header, G16, G32;
  }

  /** protocol_create_packet: the data already sits in the buffer behind the header. */
  method CreatePacket(buffer: array<byte>, tag: byte, length: nat)
    requires length < 0x100 && length + 4 <= buffer.Length
    modifies buffer
    ensures buffer[..length + 4] == Frame(tag, old(buffer[2..2 + length]), false)
    ensures buffer[length + 4..] == old(buffer[length + 4..])
  {
    hide Register, BitsOf, Bits16, Header, Frame, HighHalf, LowHalf, G16, ZeroBytes, Pack;
    ghost var b := buffer[..];
    buffer[0] := tag;
    buffer[1] := length as byte;
    var crcMsbIndex := length + 4 - 2;
    var crcLsbIndex := length + 4 - 1;
    buffer[crcMsbIndex] := 0;
    buffer[crcLsbIndex] := 0;
    assert buffer[..] == Framed(b, tag, length, 0, 0);
    Layout(b, tag, length, 0, 0);
    ZeroSlots(tag, b[2..2 + length]);
    assert buffer[..length + 4] == buffer[..][..length + 4];
    var crcVal := Crc16Calculate(buffer, length + 4);
    PackRegister(crcVal);
    FrameFromRegister(tag, b[2..2 + length], Bits16(crcVal), [HighHalf(crcVal), LowHalf(crcVal)]);
    buffer[crcMsbIndex] := HighHalf(crcVal);
    buffer[crcLsbIndex] := LowHalf(crcVal);
    assert buffer[..] == Framed(b, tag, length, HighHalf(crcVal), LowHalf(crcVal));
    Layout(b, tag, length, HighHalf(crcVal), LowHalf(crcVal));
    assert buffer[..length + 4] == buffer[..][..length + 4] && buffer[length + 4..] == buffer[..][length + 4..];
  }

  /** protocol_validate_packet */
  method ValidatePacket(packet: array<byte>, isFirmware: bool) returns (ok: bool)
    requires packet.Length >= SPAN
    ensures ok == Valid(packet[..], isFirmware)
  {
    hide Register, BitsOf, Bits16, Bits32, AllZero, G16, G32;
    var n := packet[1] as nat;
    ghost var whole := packet[..];
    assert whole[1] == packet[1];
    if isFirmware {
      var crc := Crc32Calculate(packet, n + 6);
      assert whole[..n + 6] == packet[..n + 6];
      ZeroRegister32(crc);
      ok := crc == 0;
    } else {
      var crc := Crc16Calculate(packet, n + 4);
      assert whole[..n + 4] == packet[..n + 4];
      ZeroRegister16(crc);
      ok := crc == 0;
    }
  }

  /** protocol_extract_packet_attr */
  method ExtractPacketAttr(packet: array<byte>, isFirmware: bool) returns (attr: Attr)
    requires packet.Length >= SPAN
    ensures attr == Extract(packet[..], isFirmware)
  {
    hide Valid;
    attr := Attr(TAG_INVALID, 0, 0);
    var ok := ValidatePacket(packet, isFirmware);
    if isFirmware {
      if ok {
        attr := attr.(tag := packet[0], length := packet[1]);
      }
      return;
    }
    if !ok {
      return;
    }
    attr := attr.(tag := packet[0]);
    if attr.tag == TAG_PW {
      attr := attr.(offset := 0, length := packet[1]);
      return;
    }
    attr := attr.(offset := packet[2], length := packet[3]);
  }

  // ----- the script -----

  function LowByteOf(n: nat): byte {
    (n % 0x100) as byte
  }

  lemma LastByte(crc: nat, w: nat)
    ensures LowBits(crc, w + 8) == LowBits(crc / 0x100, w) + ByteBits(LowByteOf(crc))
  {
    LowBitsOfBytes(crc / 0x100, crc % 0x100, w);
  }

  /** [(crcVal >> 8) & 0xff, crcVal & 0xff] */
  function CheckBytes16(crc: nat): seq<byte> {
    [LowByteOf(crc / 0x100), LowByteOf(crc)]
  }

  /** [(crc32Val >> 24) & 0xff, (crc32Val >> 16) & 0xff, (crc32Val >> 8) & 0xff, crc32Val & 0xff] */
  function CheckBytes32(crc: nat): seq<byte> {
    [LowByteOf(crc / 0x100 / 0x100 / 0x100), LowByteOf(crc / 0x100 / 0x100), LowByteOf(crc / 0x100), LowByteOf(crc)]
  }

  lemma PackCheckBytes16(crc: nat)
    ensures CheckBytes16(crc) == Pack(LowBits(crc, 16))
  {
    hide LowBits, ByteBits, Pack, LowByteOf;
    LastByte(crc, 8);
    LastByte(crc / 0x100, 0);
    NoBits(crc / 0x100 / 0x100);
    PackTwo(LowByteOf(crc / 0x100), LowByteOf(crc));
    assert [] + ByteBits(LowByteOf(crc / 0x100)) == ByteBits(LowByteOf(crc / 0x100));
  }

  lemma NoBits(n: nat)
    ensures LowBits(n, 0) == []
  {
  }

  lemma PackCheckBytes32(crc: nat)
    ensures CheckBytes32(crc) == Pack(LowBits(crc, 32))
  {
    hide LowBits, ByteBits, Pack, LowByteOf;
    var c1, c2, c3 := crc / 0x100, crc / 0x100 / 0x100, crc / 0x100 / 0x100 / 0x100;
    LastByte(crc, 24);
    LastByte(c1, 16);
    LastByte(c2, 8);
    LastByte(c3, 0);
    NoBits(c3 / 0x100);
    PackFour(LowByteOf(c3), LowByteOf(c2), LowByteOf(c1), LowByteOf(crc), LowBits(crc, 32));
  }

  /** create_packet */
  method HostCreatePacket(tag: byte, data: seq<byte>, isFirmware: bool) returns (packet: seq<byte>)
    requires |data| < 0x100
    ensures packet == Frame(tag, data, isFirmware)
  {
    hide Register, Pack, BitsOf, LowBits, CheckBytes16, CheckBytes32, G16, G32, ZeroBytes;
    SameGenerators();
    ZeroSlots(tag, data);
    if !isFirmware {
      var tempPacket := [tag, |data| as byte] + data + [0, 0];
      var crcVal := HostCrc(tempPacket, 16, POLY16);
      PackCheckBytes16(crcVal);
      packet := [tag, |data| as byte] + data + CheckBytes16(crcVal);
    } else {
      var fwChunk := [tag, |data| as byte] + data + [0, 0, 0, 0];
      var crc32Val := HostCrc(fwChunk, 32, POLY32);
      PackCheckBytes32(crc32Val);
      packet := [tag, |data| as byte] + data + CheckBytes32(crc32Val);
    }
  }

  lemma PackFour(b0: byte, b1: byte, b2: byte, b3: byte, s: Bits)
    requires s == [] + ByteBits(b0) + ByteBits(b1) + ByteBits(b2) + ByteBits(b3)
    ensures Pack(s) == [b0, b1, b2, b3]
  {
    PackBits(s);
    BitsOfConcat([b0], [b1]);
    BitsOfConcat([b0] + [b1], [b2]);
    BitsOfConcat([b0] + [b1] + [b2], [b3]);
    BitsOfSingle(b0); BitsOfSingle(b1); BitsOfSingle(b2); BitsOfSingle(b3);
    BitsOfInjective(Pack(s), [b0] + [b1] + [b2] + [b3]);
  }
}
