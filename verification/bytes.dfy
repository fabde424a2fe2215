/** Bytes, bits and 32-bit words, as the C code and the host script see them. */
module Bytes {

  type byte = bv8

  /** An erased flash cell. */
  const BLANK: byte := 0xFF

  /** A polynomial over GF(2) or a message, most significant bit first. */
  type Bits = seq<bool>

  datatype Option<+T> = None | Some(value: T)

  function Blanks(n: nat): (s: seq<byte>)
    ensures |s| == n && forall i :: 0 <= i < n ==> s[i] == BLANK
  {
    seq(n, _ => BLANK)
  }

  function Zeros(n: nat): (s: Bits)
    ensures |s| == n && forall i :: 0 <= i < n ==> !s[i]
  {
    seq(n, _ => false)
  }

  function Xor(a: Bits, b: Bits): (s: Bits)
    requires |a| == |b|
    ensures |s| == |a| && forall i :: 0 <= i < |a| ==> s[i] == (a[i] != b[i])
  {
    seq(|a|, i requires 0 <= i < |a| => a[i] != b[i])
  }

  /** Single-bit masks, most significant bit first. */
  function Mask8(i: nat): bv8
    requires i < 8
  {
    if i == 0 then 0x80 else if i == 1 then 0x40 else if i == 2 then 0x20 else if i == 3 then 0x10
    else if i == 4 then 0x08 else if i == 5 then 0x04 else if i == 6 then 0x02 else 0x01
  }

  function Mask16(i: nat): bv16
    requires i < 16
  {
    if i < 8 then (Mask8(i) as bv16) << 8 else Mask8(i - 8) as bv16
  }

  function Mask32(i: nat): bv32
    requires i < 32
  {
    if i < 16 then (Mask16(i) as bv32) << 16 else Mask16(i - 16) as bv32
  }

  lemma Mask8Facts(i: nat)
    requires i < 8
    ensures i < 7 ==> Mask8(i + 1) == Mask8(i) >> 1 && Mask8(i) & 1 == 0
  {
  }

  lemma Mask16Facts(i: nat)
    requires i < 16
    ensures Mask16(i) != 0 && Mask16(i) & (Mask16(i) - 1) == 0
    ensures i < 15 ==> Mask16(i + 1) == Mask16(i) >> 1 && Mask16(i) & 1 == 0
  {
  }

  lemma Mask32Facts(i: nat)
    requires i < 32
    ensures Mask32(i) != 0 && Mask32(i) & (Mask32(i) - 1) == 0
    ensures i < 31 ==> Mask32(i + 1) == Mask32(i) >> 1 && Mask32(i) & 1 == 0
  {
  }

  predicate Test8(b: bv8, m: bv8) { b & m != 0 }

  predicate Test16(r: bv16, m: bv16) { r & m != 0 }

  predicate Test32(r: bv32, m: bv32) { r & m != 0 }

  predicate On8(b: byte, i: nat)
    requires i < 8
  {
    Test8(b, Mask8(i))
  }

  function ByteBits(b: byte): (s: Bits)
    ensures |s| == 8
  {
    seq(8, i requires 0 <= i < 8 => On8(b, i))
  }

  function BitsOf(data: seq<byte>): (s: Bits)
    ensures |s| == 8 * |data|
  {
    if data == [] then [] else BitsOf(data[..|data| - 1]) + ByteBits(data[|data| - 1])
  }

  /** The w low-order bits of a number. */
  function LowBits(n: nat, w: nat): (s: Bits)
    ensures |s| == w
  {
    if w == 0 then [] else LowBits(n / 2, w - 1) + [n % 2 == 1]
  }

  /** Exclusive or of two numbers of any size, as Python computes it. */
  function NatXor(a: nat, b: nat): nat
    decreases a + b
  {
    if a == 0 then b
    else if b == 0 then a
    else 2 * NatXor(a / 2, b / 2) + (if a % 2 == b % 2 then 0 else 1)
  }

  /** Bitwise and of two numbers. */
  function NatAnd(a: nat, b: nat): nat
    decreases a + b
  {
    if a == 0 || b == 0 then 0
    else 2 * NatAnd(a / 2, b / 2) + (if a % 2 == 1 && b % 2 == 1 then 1 else 0)
  }

  function Pow2(k: nat): (p: nat)
    ensures p > 0
  {
    if k == 0 then 1 else 2 * Pow2(k - 1)
  }

  /** n >> k, as Python and C shift an unsigned number. */
  function Shr(n: nat, k: nat): nat {
    if k == 0 then n else Shr(n / 2, k - 1)
  }

  /** The value of a little-endian uint32_t read from memory. */
  function LittleEndian(b: seq<byte>): (n: nat)
    requires |b| == 4
  {
    (b[0] as nat) + 0x100 * ((b[1] as nat) + 0x100 * ((b[2] as nat) + 0x100 * (b[3] as nat)))
  }

  function ToLittleEndian(n: nat): (b: seq<byte>)
    requires n < 0x1_0000_0000
    ensures |b| == 4 && LittleEndian(b) == n
  {
    var n1, n2, n3 := n / 0x100, n / 0x100 / 0x100, n / 0x100 / 0x100 / 0x100;
    assert n3 < 0x100;
    ByteValue(n % 0x100); ByteValue(n1 % 0x100); ByteValue(n2 % 0x100); ByteValue(n3);
    [(n % 0x100) as byte, (n1 % 0x100) as byte, (n2 % 0x100) as byte, n3 as byte]
  }

  lemma ByteOfValue(b: byte)
    ensures (b as nat) as byte == b
  {
  }

  lemma NextValue(b: byte)
    requires b as nat < 0xFF
    ensures (b + 1) as nat == b as nat + 1
  {
  }

  /** Every number below 256 is the value of a byte. */
  lemma {:induction false} SomeByte(n: nat) returns (b: byte)
    requires n < 0x100
    ensures b as nat == n
  {
    if n == 0 {
      b := 0;
    } else {
      var c := SomeByte(n - 1);
      NextValue(c);
      b := c + 1;
    }
  }

  lemma ByteValue(n: nat)
    requires n < 0x100
    ensures (n as byte) as nat == n
  {
    var b := SomeByte(n);
    ByteOfValue(b);
  }

  // ----- slices -----

  lemma SliceOfSlice<T>(s: seq<T>, a: nat, b: nat, i: nat, j: nat)
    requires a <= b <= |s| && i <= j <= b - a
    ensures s[a..b][i..j] == s[a + i..a + j]
  {
    var x, y, m := s[a..b][i..j], s[a + i..a + j], s[a..b];
    forall k | 0 <= k < j - i ensures x[k] == y[k] {
      assert x[k] == m[i + k] == s[a + (i + k)] == y[k];
    }
  }

  lemma ThreeParts<T>(s: seq<T>, a: nat, b: nat)
    requires a <= b <= |s|
    ensures s == s[..a] + s[a..b] + s[b..]
  {
  }

  // ----- bits of concatenations -----

  lemma {:induction false} BitsOfConcat(a: seq<byte>, b: seq<byte>)
    ensures BitsOf(a + b) == BitsOf(a) + BitsOf(b)
  {
    if b == [] {
      assert a + b == a;
    } else {
      var k := |b| - 1;
      assert (a + b)[..|a + b| - 1] == a + b[..k];
      BitsOfConcat(a, b[..k]);
    }
  }

  lemma BitsOfSingle(b: byte)
    ensures BitsOf([b]) == ByteBits(b)
  {
    assert [b][..0] == [];
  }

  /** A byte sequence is determined by its bits. */
  lemma {:induction false} BitsOfInjective(a: seq<byte>, b: seq<byte>)
    requires BitsOf(a) == BitsOf(b)
    ensures a == b
  {
    assert |a| == |b|;
    if a != [] {
      var k := |a| - 1;
      var x, y := BitsOf(a[..k]), BitsOf(b[..k]);
      assert x == BitsOf(a)[..8 * k] == BitsOf(b)[..8 * k] == y;
      assert ByteBits(a[k]) == BitsOf(a)[8 * k..] == BitsOf(b)[8 * k..] == ByteBits(b[k]);
      ByteBitsInjective(a[k], b[k]);
      BitsOfInjective(a[..k], b[..k]);
      assert a == a[..k] + [a[k]] && b == b[..k] + [b[k]];
    }
  }

  lemma SameTests(a: byte, b: byte)
    requires Test8(a, 0x80) == Test8(b, 0x80) && Test8(a, 0x40) == Test8(b, 0x40)
    requires Test8(a, 0x20) == Test8(b, 0x20) && Test8(a, 0x10) == Test8(b, 0x10)
    requires Test8(a, 0x08) == Test8(b, 0x08) && Test8(a, 0x04) == Test8(b, 0x04)
    requires Test8(a, 0x02) == Test8(b, 0x02) && Test8(a, 0x01) == Test8(b, 0x01)
    ensures a == b
  {
  }

  lemma ByteBitsInjective(a: byte, b: byte)
    requires ByteBits(a) == ByteBits(b)
    ensures a == b
  {
    hide Test8;
    forall i | 0 <= i < 8 ensures On8(a, i) == On8(b, i) {
      assert ByteBits(a)[i] == ByteBits(b)[i];
    }
    assert On8(a, 0) == On8(b, 0) && On8(a, 1) == On8(b, 1) && On8(a, 2) == On8(b, 2) && On8(a, 3) == On8(b, 3);
    assert On8(a, 4) == On8(b, 4) && On8(a, 5) == On8(b, 5) && On8(a, 6) == On8(b, 6) && On8(a, 7) == On8(b, 7);
    SameTests(a, b);
  }

  // ----- numbers and their low bits -----

  lemma {:induction false} LowBitsAppend(n: nat, b: nat, w: nat)
    requires w > 0 && b < 2
    ensures LowBits(2 * n + b, w) == LowBits(n, w)[1..] + [b == 1]
  {
    assert (2 * n + b) / 2 == n && (2 * n + b) % 2 == b;
    LowBitsTail(n, w - 1);
  }

  lemma {:induction false} LowBitsTail(n: nat, w: nat)
    ensures LowBits(n, w + 1)[1..] == LowBits(n, w)
  {
    if w > 0 {
      LowBitsTail(n / 2, w - 1);
      assert LowBits(n, w + 1) == LowBits(n / 2, w) + [n % 2 == 1];
    }
  }

  /** The first of the w low bits is the one the scripts read as (n >> (w - 1)) & 1. */
  lemma {:induction false} LowBitsTop(n: nat, w: nat)
    requires w > 0
    ensures LowBits(n, w)[0] <==> Shr(n, w - 1) % 2 == 1
  {
    if w > 1 {
      LowBitsTop(n / 2, w - 1);
    }
  }

  lemma {:induction false} LowBitsXor(a: nat, b: nat, w: nat)
    ensures LowBits(NatXor(a, b), w) == Xor(LowBits(a, w), LowBits(b, w))
    decreases w
  {
    if w > 0 {
      LowBitsXor(a / 2, b / 2, w - 1);
      assert NatXor(a, b) / 2 == NatXor(a / 2, b / 2);
      assert NatXor(a, b) % 2 == (if a % 2 == b % 2 then 0 else 1);
    }
  }

  lemma {:induction false} LowBitsMask(n: nat, w: nat)
    ensures LowBits(NatAnd(n, Pow2(w) - 1), w) == LowBits(n, w)
  {
    if w > 0 {
      LowBitsMask(n / 2, w - 1);
      NatAndMaskStep(n, w);
    }
  }

  lemma NatAndMaskStep(n: nat, w: nat)
    requires w > 0
    ensures NatAnd(n, Pow2(w) - 1) == 2 * NatAnd(n / 2, Pow2(w - 1) - 1) + n % 2
  {
    var p := Pow2(w - 1);
    assert (2 * p - 1) / 2 == p - 1 && (2 * p - 1) % 2 == 1;
  }

  lemma {:induction false} LowBitsZero(w: nat)
    ensures LowBits(0, w) == Zeros(w)
  {
    if w > 0 {
      LowBitsZero(w - 1);
    }
  }

  lemma {:induction false} LowBitsOfByte(n: nat, k: nat)
    requires n < 0x100 && k <= 8
    ensures LowBits(n, k) == ByteBits(n as byte)[8 - k..]
  {
    if k > 0 {
      LowBitsOfByte(n / 2, k - 1);
      ByteShift(n);
      BitOf(n);
      HalfBitsFrom(n as byte, k);
    }
  }

  lemma HalfBitsFrom(b: byte, k: nat)
    requires 0 < k <= 8
    ensures ByteBits(b)[8 - k..] == ByteBits(b >> 1)[9 - k..] + [ByteBits(b)[7]]
  {
    HalfBits(b);
    var s := ByteBits(b);
    assert ([false] + s[..7])[9 - k..] == s[8 - k..7];
    assert s[8 - k..] == s[8 - k..7] + [s[7]];
  }

  lemma HalfBits(b: byte)
    ensures ByteBits(b >> 1) == [false] + ByteBits(b)[..7]
  {
    hide Test8;
    TopOfHalf(b);
    forall i | 0 <= i < 7 ensures ByteBits(b >> 1)[i + 1] == ByteBits(b)[i] {
      HalfOn(b, i);
    }
  }

  lemma TopOfHalf(b: byte)
    ensures !On8(b >> 1, 0)
  {
  }

  lemma HalfOn(b: byte, i: nat)
    requires i < 7
    ensures On8(b >> 1, i + 1) == On8(b, i)
  {
    hide Test8;
    Mask8Facts(i);
    HalfMask(b, Mask8(i));
  }

  lemma HalfMask(b: byte, m: byte)
    requires m & 1 == 0
    ensures Test8(b, m) == Test8(b >> 1, m >> 1)
  {
  }

  lemma LowestBit(b: byte)
    ensures b & 1 != 0 <==> b as nat % 2 == 1
  {
  }

  lemma BitOf(n: nat)
    requires n < 0x100
    ensures n % 2 == 1 <==> ByteBits(n as byte)[7]
  {
    ByteValue(n);
    LowestBit(n as byte);
  }

  lemma HalfValue(b: byte)
    ensures (b >> 1) as nat == b as nat / 2
  {
  }

  lemma ByteShift(n: nat)
    requires n < 0x100
    ensures (n / 2) as byte == (n as byte) >> 1
  {
    ByteValue(n);
    HalfValue(n as byte);
    ByteOfValue((n as byte) >> 1);
  }

  lemma {:induction false} LowBitsSplit(n: nat, w: nat, k: nat)
    ensures LowBits(n, w + k) == LowBits(Shr(n, k), w) + LowBits(n, k)
    decreases k
  {
    if k > 0 {
      LowBitsSplit(n / 2, w, k - 1);
      calc {
        LowBits(n, w + k);
        LowBits(n / 2, w + (k - 1)) + [n % 2 == 1];
        (LowBits(Shr(n, k), w) + LowBits(n / 2, k - 1)) + [n % 2 == 1];
        LowBits(Shr(n, k), w) + LowBits(n, k);
      }
    } else {
      assert LowBits(n, w) + [] == LowBits(n, w);
    }
  }

  lemma MulStep(p: nat, q: nat, d: nat)
    requires d > 0
    ensures p * (q + d) == p * q + p * d && p * d >= p
  {
    assert p * (d - 1) >= 0;
  }

  lemma QuotientUnique(p: nat, q: nat, r: nat, q': nat, r': nat)
    requires p * q + r == p * q' + r' && r < p && r' < p
    ensures q == q' && r == r'
  {
    if q > q' {
      MulStep(p, q', q - q');
    } else if q < q' {
      MulStep(p, q, q' - q);
    }
  }

  /** Masking with len - 1 is the remainder, for a power of two. */
  lemma {:induction false} MaskIsMod(x: nat, k: nat)
    ensures NatAnd(x, Pow2(k) - 1) == x % Pow2(k)
  {
    if k > 0 {
      var p := Pow2(k - 1);
      NatAndMaskStep(x, k);
      MaskIsMod(x / 2, k - 1);
      RemainderHalves(x, p);
    }
  }

  lemma RemainderHalves(x: nat, p: nat)
    requires p > 0
    ensures x % (2 * p) == 2 * (x / 2 % p) + x % 2
  {
    var h, p2 := x / 2, 2 * p;
    var q, r := Divide(h, p);
    var q', r' := Divide(x, p2);
    assert p2 * q == 2 * (p * q);
    QuotientUnique(p2, q, 2 * r + x % 2, q', r');
  }

  lemma Divide(x: nat, p: nat) returns (q: nat, r: nat)
    requires p > 0
    ensures x == p * q + r && r == x % p && r < p
  {
    q, r := x / p, x % p;
  }
}
