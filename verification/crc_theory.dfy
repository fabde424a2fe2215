/**
 What the check bytes mean and which errors they catch.

 A message is a polynomial over GF(2), most significant coefficient first. Product multiplies by the
 generator independently of the shift register; the register is then shown to be exactly the remainder
 of the division, and the error-detection bounds follow for messages of every length.
 */
module CrcTheory {
  import opened Bytes
  import opened Crc

  predicate AllZero(s: Bits) {
    forall i :: 0 <= i < |s| ==> !s[i]
  }

  /** The generator with its leading coefficient, shifted to the end of n places. */
  function Aligned(g: Bits, n: nat): (s: Bits)
    requires n > |g|
    ensures |s| == n
  {
    Zeros(n - |g| - 1) + [true] + g
  }

  /** q times the generator, by Horner's rule. */
  function Product(g: Bits, q: Bits): (p: Bits)
    ensures |p| == |q| + |g|
  {
    if q == [] then Zeros(|g|)
    else
      var p := Product(g, q[..|q| - 1]) + [false];
      if q[|q| - 1] then Xor(p, Aligned(g, |p|)) else p
  }

  /** m == q * generator + r with deg r < |g|: r is a remainder of m. */
  ghost predicate IsRemainder(g: Bits, m: Bits, q: Bits, r: Bits) {
    |q| == |m| && |r| == |g| && Zeros(|g|) + m == Xor(Product(g, q), Zeros(|m|) + r)
  }

  function Parity(s: Bits): bool {
    if s == [] then false else Parity(s[..|s| - 1]) != s[|s| - 1]
  }

  // ----- linearity -----

  lemma ShiftXor(g: Bits, r: Bits, s: Bits, a: bool, b: bool)
    requires |r| == |s| == |g| > 0
    ensures Shift(g, Xor(r, s), a != b) == Xor(Shift(g, r, a), Shift(g, s, b))
  {
  }

  /** The register is linear on messages of equal length. */
  lemma {:induction false} RegisterXor(g: Bits, a: Bits, b: Bits)
    requires |g| > 0 && |a| == |b|
    ensures Register(g, Xor(a, b)) == Xor(Register(g, a), Register(g, b))
  {
    if a != [] {
      var k := |a| - 1;
      RegisterXor(g, a[..k], b[..k]);
      assert Xor(a, b)[..k] == Xor(a[..k], b[..k]);
      ShiftXor(g, Register(g, a[..k]), Register(g, b[..k]), a[k], b[k]);
    }
  }

  /** Up to |g| bits are only shifted in. */
  lemma {:induction false} RegisterShort(g: Bits, z: nat, m: Bits)
    requires |m| <= |g| && |g| > 0
    ensures Register(g, Zeros(z) + m) == Zeros(|g| - |m|) + m
    decreases z + |m|
  {
    if m != [] {
      var k := |m| - 1;
      RegisterShort(g, z, m[..k]);
      assert (Zeros(z) + m)[..z + k] == Zeros(z) + m[..k];
    } else if z > 0 {
      RegisterShort(g, z - 1, m);
      assert (Zeros(z) + m)[..z - 1] == Zeros(z - 1) + m;
    }
  }

  lemma {:induction false} RegisterLeadingZeros(g: Bits, z: nat, m: Bits)
    requires |g| > 0
    ensures Register(g, Zeros(z) + m) == Register(g, m)
  {
    if m == [] {
      RegisterShort(g, z, m);
    } else {
      var k := |m| - 1;
      assert (Zeros(z) + m)[..z + k] == Zeros(z) + m[..k];
      RegisterLeadingZeros(g, z, m[..k]);
    }
  }

  // ----- the register is the remainder -----

  /** The quotient bits are the bits that fall out of the register. */
  function Quotient(g: Bits, m: Bits): (q: Bits)
    requires |g| > 0
    ensures |q| == |m|
  {
    if m == [] then [] else Quotient(g, m[..|m| - 1]) + [Register(g, m[..|m| - 1])[0]]
  }

  lemma {:induction false} RegisterIsRemainder(g: Bits, m: Bits)
    requires |g| > 0
    ensures IsRemainder(g, m, Quotient(g, m), Register(g, m))
  {
    if m != [] {
      var k := |m| - 1;
      var m', q', r' := m[..k], Quotient(g, m[..k]), Register(g, m[..k]);
      RegisterIsRemainder(g, m');
      var q, r := Quotient(g, m), Register(g, m);
      assert q[..k] == q' && q[k] == r'[0];
      DivisionStep(g, m', m[k], q', r');
      assert m == m' + [m[k]];
    }
  }

  lemma DivisionStep(g: Bits, m: Bits, b: bool, q: Bits, r: Bits)
    requires |g| > 0 && IsRemainder(g, m, q, r)
    ensures IsRemainder(g, m + [b], q + [r[0]], Shift(g, r, b))
  {
    hide Shift, Aligned, Product, Xor;
    var p, y := Product(g, q), Zeros(|m|) + r;
    ProductSnoc(g, q, r[0]);
    ShiftAligned(g, r, b, |m|);
    XorSnoc(p, y, b);
    XorCancel(p + [false], y + [b], Aligned(g, |m| + 1 + |g|));
    assert Zeros(|g|) + (m + [b]) == Zeros(|g|) + m + [b];
  }

  lemma ProductSnoc(g: Bits, q: Bits, b: bool)
    ensures Product(g, q + [b])
         == if b then Xor(Product(g, q) + [false], Aligned(g, |q| + 1 + |g|)) else Product(g, q) + [false]
  {
    assert (q + [b])[..|q|] == q;
  }

  /** A step, with the bits that have fallen out of the register in front of it. */
  lemma ShiftAligned(g: Bits, r: Bits, b: bool, n: nat)
    requires |r| == |g| > 0
    ensures Zeros(n + 1) + Shift(g, r, b)
         == if r[0] then Xor(Zeros(n) + r + [b], Aligned(g, n + 1 + |g|)) else Zeros(n) + r + [b]
  {
    var y, a := Zeros(n) + r + [b], Aligned(g, n + 1 + |g|);
    var x := r[1..] + [b];
    assert y == Zeros(n) + [r[0]] + x;
    if !r[0] {
      assert Zeros(n + 1) == Zeros(n) + [false];
    } else {
      forall i | 0 <= i < |y| ensures (Zeros(n + 1) + Xor(x, g))[i] == (y[i] != a[i]) {
      }
    }
  }

  lemma XorSnoc(p: Bits, y: Bits, b: bool)
    requires |p| == |y|
    ensures Xor(p + [false], y + [b]) == Xor(p, y) + [b]
  {
  }

  lemma XorCancel(p: Bits, y: Bits, a: Bits)
    requires |p| == |y| == |a|
    ensures Xor(Xor(p, a), Xor(y, a)) == Xor(p, y)
  {
  }

  lemma {:induction false} RegisterOfAligned(g: Bits, n: nat)
    requires |g| > 0 && n > |g|
    ensures Register(g, Aligned(g, n)) == Zeros(|g|)
  {
    hide Register;
    var top, last := [true] + g[..|g| - 1], g[|g| - 1];
    var head := Zeros(n - |g| - 1) + top;
    assert Aligned(g, n) == head + [last];
    RegisterSnoc(g, head, last);
    RegisterShort(g, n - |g| - 1, top);
    assert Zeros(0) + top == top;
    assert top[1..] + [last] == g;
    assert Xor(g, g) == Zeros(|g|);
  }

  /** Multiples of the generator leave the register at zero. */
  lemma {:induction false} RegisterOfProduct(g: Bits, q: Bits)
    requires |g| > 0
    ensures Register(g, Product(g, q)) == Zeros(|g|)
  {
    hide Register, Aligned;
    if q == [] {
      RegisterShort(g, |g|, []);
      assert Zeros(|g|) + [] == Zeros(|g|);
    } else {
      var k := |q| - 1;
      var p := Product(g, q[..k]);
      RegisterOfProduct(g, q[..k]);
      RegisterSnoc(g, p, false);
      ShiftZeros(g);
      if q[k] {
        RegisterOfAligned(g, |p| + 1);
        RegisterXor(g, p + [false], Aligned(g, |p| + 1));
      }
    }
  }

  lemma ShiftZeros(g: Bits)
    requires |g| > 0
    ensures Shift(g, Zeros(|g|), false) == Zeros(|g|) && Xor(Zeros(|g|), Zeros(|g|)) == Zeros(|g|)
  {
  }

  lemma RemainderMeans(g: Bits, m: Bits, q: Bits, r: Bits)
    requires IsRemainder(g, m, q, r)
    ensures |q| == |m| && |r| == |g| && Zeros(|g|) + m == Xor(Product(g, q), Zeros(|m|) + r)
  {
  }

  lemma RemainderUnique(g: Bits, m: Bits, q: Bits, r: Bits)
    requires |g| > 0 && IsRemainder(g, m, q, r)
    ensures r == Register(g, m)
  {
    hide Register, Product, IsRemainder;
    var p, x := Product(g, q), Zeros(|m|) + r;
    RemainderMeans(g, m, q, r);
    RegisterOfProduct(g, q);
    RegisterXor(g, p, x);
    RegisterShort(g, |m|, r);
    RegisterLeadingZeros(g, |g|, m);
    assert Xor(Zeros(|g|), r) == r;
    assert Zeros(0) + r == r;
  }

  /** There is exactly one remainder, and the register holds it. */
  lemma RemainderIff(g: Bits, m: Bits, r: Bits)
    requires |g| > 0
    ensures (exists q :: IsRemainder(g, m, q, r)) <==> r == Register(g, m)
  {
    hide Register, Product, Quotient;
    RegisterIsRemainder(g, m);
    forall q | IsRemainder(g, m, q, r) ensures r == Register(g, m) {
      RemainderUnique(g, m, q, r);
    }
  }

  // ----- bursts -----

  /** Appending zeros cannot clear the register when the generator's constant term is one. */
  lemma {:induction false} TrailingZeros(g: Bits, m: Bits, z: nat)
    requires |g| > 0 && g[|g| - 1]
    ensures AllZero(Register(g, m + Zeros(z))) <==> AllZero(Register(g, m))
  {
    if z == 0 {
      assert m + Zeros(0) == m;
    } else {
      TrailingZeros(g, m, z - 1);
      assert m + Zeros(z) == (m + Zeros(z - 1)) + [false];
      RegisterSnoc(g, m + Zeros(z - 1), false);
      ZeroStep(g, Register(g, m + Zeros(z - 1)));
    }
  }

  lemma ZeroStep(g: Bits, r: Bits)
    requires |r| == |g| > 0 && g[|g| - 1]
    ensures AllZero(Shift(g, r, false)) <==> AllZero(r)
  {
    var s := Shift(g, r, false);
    if r[0] {
      assert s[|g| - 1];
    } else {
      forall i | 1 <= i < |g| ensures s[i - 1] == r[i] {}
      assert !s[|g| - 1];
      if AllZero(s) {
        forall i | 0 <= i < |r| ensures !r[i] {
          if i > 0 { assert !s[i - 1]; }
        }
      }
    }
  }

  /** A burst of at most |g| + 1 bits goes unnoticed only if it is no error or the generator itself. */
  lemma BurstIff(g: Bits, a: nat, b: Bits, c: nat)
    requires |g| > 0 && g[|g| - 1] && |b| <= |g| + 1
    ensures AllZero(Register(g, Zeros(a) + b + Zeros(c))) <==> AllZero(b) || b == [true] + g
  {
    hide Register, AllZero;
    TrailingZeros(g, Zeros(a) + b, c);
    if |b| <= |g| {
      RegisterShort(g, a, b);
      ZerosAllZero(|g| - |b|);
      SplitZero(Zeros(|g| - |b|), b);
    } else {
      var k := |g|;
      RegisterShort(g, a, b[..k]);
      assert Zeros(0) + b[..k] == b[..k];
      assert Zeros(a) + b == (Zeros(a) + b[..k]) + [b[k]];
      RegisterSnoc(g, Zeros(a) + b[..k], b[k]);
      LongBurst(g, b);
    }
  }

  lemma LongBurst(g: Bits, b: Bits)
    requires |g| > 0 && |b| == |g| + 1
    ensures AllZero(Shift(g, b[..|g|], b[|g|])) <==> AllZero(b) || b == [true] + g
  {
    var k := |g|;
    var s := Shift(g, b[..k], b[k]);
    assert b[..k][1..] + [b[k]] == b[1..];
    if b[0] {
      assert s == Xor(b[1..], g);
      if AllZero(s) {
        forall i | 0 <= i < k ensures b[1..][i] == g[i] {
          assert !s[i];
        }
        assert b == [true] + b[1..];
      }
    } else {
      assert s == b[1..];
      forall i | 1 <= i < |b| ensures b[i] == s[i - 1] {}
    }
  }

  /** A generator divisible by x^5 is the smaller generator with the last five bits merely delayed. */
  lemma {:induction false} DelayedRegister(h: Bits, z: nat, m: Bits)
    requires |h| > 0 && |m| >= z
    ensures Register(h + Zeros(z), m) == Register(h, m[..|m| - z]) + m[|m| - z..]
  {
    hide Register, Shift;
    var g := h + Zeros(z);
    if |m| == z {
      RegisterShort(g, 0, m);
      RegisterShort(h, 0, []);
      assert Zeros(0) + m == m && Zeros(0) + [] == [];
      assert m[..0] == [] && m[0..] == m;
    } else {
      var k, n := |m| - 1, |m| - 1 - z;
      DelayedRegister(h, z, m[..k]);
      assert m == m[..k] + [m[k]];
      RegisterSnoc(g, m[..k], m[k]);
      Window(m, n, k);
      RegisterSnoc(h, m[..n], m[n]);
      DelayedShift(h, z, Register(h, m[..n]), m[n..k], m[k]);
    }
  }

  lemma Window(m: Bits, n: nat, k: nat)
    requires n <= k == |m| - 1
    ensures m[..k][..n] == m[..n] && m[..k][n..] == m[n..k] && m[..n + 1] == m[..n] + [m[n]]
    ensures (m[n..k] + [m[k]])[0] == m[n] && (m[n..k] + [m[k]])[1..] == m[n + 1..]
  {
    assert m[n..k] + [m[k]] == m[n..];
  }

  lemma DelayedShift(h: Bits, z: nat, r: Bits, t: Bits, b: bool)
    requires |r| == |h| > 0 && |t| == z
    ensures Shift(h + Zeros(z), r + t, b) == Shift(h, r, (t + [b])[0]) + (t + [b])[1..]
  {
    var s := (t + [b])[0];
    assert (r + t)[1..] + [b] == (r[1..] + [s]) + (t + [b])[1..];
    if r[0] {
      assert Xor((r[1..] + [s]) + (t + [b])[1..], h + Zeros(z)) == Xor(r[1..] + [s], h) + (t + [b])[1..];
    }
  }

  /**
   A generator h * x^z with h's constant term one, on errors confined to |h| + 1 consecutive bits: only
   the pattern of h itself goes unnoticed, and only if it ends at least z bits before the message does.
   */
  lemma DelayedBurstIff(h: Bits, z: nat, a: nat, b: Bits, c: nat)
    requires |h| > 0 && h[|h| - 1] && |b| <= |h| + 1
    ensures AllZero(Register(h + Zeros(z), Zeros(a) + b + Zeros(c)))
       <==> AllZero(b) || (b == [true] + h && c >= z)
  {
    hide Register, AllZero;
    var m := Zeros(a) + b + Zeros(c);
    DelayedZero(h, z, m);
    if c >= z {
      BurstBeforeEnd(h, z, a, b, c);
    } else {
      BurstNearEnd(h, z, a, b, c);
    }
  }

  lemma DelayedZero(h: Bits, z: nat, m: Bits)
    requires |h| > 0
    ensures AllZero(Register(h + Zeros(z), m)) <==> CutZero(h, Zeros(z) + m, z)
  {
    hide Register, AllZero;
    var e := Zeros(z) + m;
    RegisterLeadingZeros(h + Zeros(z), z, m);
    DelayedRegister(h, z, e);
    SplitZero(Register(h, e[..|e| - z]), e[|e| - z..]);
  }

  lemma BurstBeforeEnd(h: Bits, z: nat, a: nat, b: Bits, c: nat)
    requires |h| > 0 && h[|h| - 1] && |b| <= |h| + 1 && c >= z
    ensures CutZero(h, Zeros(z) + (Zeros(a) + b + Zeros(c)), z) <==> AllZero(b) || b == [true] + h
  {
    hide Register, AllZero;
    LateBurst(z, a, b, c);
    BurstIff(h, z + a, b, c - z);
    ZerosAllZero(z);
  }

  lemma ZerosAllZero(n: nat)
    ensures AllZero(Zeros(n))
  {
  }

  lemma Cut(e: Bits, left: Bits, right: Bits)
    requires e == left + right
    ensures e[..|left|] == left && e[|left|..] == right
  {
  }

  lemma LateBurst(z: nat, a: nat, b: Bits, c: nat)
    requires c >= z
    ensures var e := Zeros(z) + (Zeros(a) + b + Zeros(c));
            e[..|e| - z] == Zeros(z + a) + b + Zeros(c - z) && e[|e| - z..] == Zeros(z)
  {
    var e := Zeros(z) + (Zeros(a) + b + Zeros(c));
    Cut(e, Zeros(z + a) + b + Zeros(c - z), Zeros(z));
  }

  lemma EarlyCut(z: nat, a: nat, b1: Bits, b2: Bits, c: nat)
    requires |b2| + c == z
    ensures var e := Zeros(z) + (Zeros(a) + (b1 + b2) + Zeros(c));
            e[..|e| - z] == Zeros(z + a) + b1 + Zeros(0) && e[|e| - z..] == b2 + Zeros(c)
  {
    var e := Zeros(z) + (Zeros(a) + (b1 + b2) + Zeros(c));
    Cut(e, Zeros(z + a) + b1 + Zeros(0), b2 + Zeros(c));
  }

  lemma LateCut(z: nat, a: nat, b: Bits, c: nat)
    requires |b| + c < z
    ensures var e := Zeros(z) + (Zeros(a) + b + Zeros(c));
            e[..|e| - z] == Zeros(|e| - z) + [] + Zeros(0) && e[|e| - z..] == (Zeros(z - c - |b|) + b) + Zeros(c)
  {
    var e := Zeros(z) + (Zeros(a) + b + Zeros(c));
    Cut(e, Zeros(|e| - z) + [] + Zeros(0), (Zeros(z - c - |b|) + b) + Zeros(c));
  }

  ghost predicate CutZero(h: Bits, e: Bits, z: nat)
    requires |h| > 0 && |e| >= z
  {
    AllZero(Register(h, e[..|e| - z])) && AllZero(e[|e| - z..])
  }

  lemma BurstCut(h: Bits, z: nat, a: nat, b1: Bits, b2: Bits, c: nat)
    requires |h| > 0 && h[|h| - 1] && |b1| <= |h| && |b2| + c == z
    ensures CutZero(h, Zeros(z) + (Zeros(a) + (b1 + b2) + Zeros(c)), z) <==> AllZero(b1 + b2)
  {
    hide Register, AllZero;
    ZerosAllZero(c);
    EarlyCut(z, a, b1, b2, c);
    BurstIff(h, z + a, b1, 0);
    SplitZero(b1, b2);
    SplitZero(b2, Zeros(c));
  }

  lemma BurstInTail(h: Bits, z: nat, a: nat, b: Bits, c: nat)
    requires |h| > 0 && h[|h| - 1] && |b| + c < z
    ensures CutZero(h, Zeros(z) + (Zeros(a) + b + Zeros(c)), z) <==> AllZero(b)
  {
    hide Register, AllZero;
    LateCut(z, a, b, c);
    ZerosAllZero(c);
    ZerosAllZero(0);
    assert Zeros(0) == [];
    BurstIff(h, a + |b| + c, [], 0);
    ZerosAllZero(z - c - |b|);
    SplitZero(Zeros(z - c - |b|) + b, Zeros(c));
    SplitZero(Zeros(z - c - |b|), b);
  }

  lemma BurstNearEnd(h: Bits, z: nat, a: nat, b: Bits, c: nat)
    requires |h| > 0 && h[|h| - 1] && |b| <= |h| + 1 && c < z
    ensures CutZero(h, Zeros(z) + (Zeros(a) + b + Zeros(c)), z) <==> AllZero(b)
  {
    var k := z - c;
    if |b| >= k {
      assert b == b[..|b| - k] + b[|b| - k..];
      BurstCut(h, z, a, b[..|b| - k], b[|b| - k..], c);
    } else {
      BurstInTail(h, z, a, b, c);
    }
  }

  /** CRC-32: every error within 27 consecutive bits is seen, and 28 is one too many. */
  lemma Burst32Iff(a: nat, b: Bits, c: nat)
    requires |b| <= 28
    ensures AllZero(Register(G32, Zeros(a) + b + Zeros(c)))
       <==> AllZero(b) || (b == [true] + H27 && c >= 5)
  {
    DelayedBurstIff(H27, 5, a, b, c);
  }

  /** CRC-16: every error within 16 consecutive bits is seen, and 17 is one too many. */
  lemma Burst16Iff(a: nat, b: Bits, c: nat)
    requires |b| <= 17
    ensures AllZero(Register(G16, Zeros(a) + b + Zeros(c))) <==> AllZero(b) || b == [true] + G16
  {
    BurstIff(G16, a, b, c);
  }

  lemma SplitZero(a: Bits, b: Bits)
    ensures AllZero(a + b) <==> AllZero(a) && AllZero(b)
  {
    if AllZero(a + b) {
      forall i | 0 <= i < |a| ensures !a[i] { assert !(a + b)[i]; }
      forall i | 0 <= i < |b| ensures !b[i] { assert !(a + b)[|a| + i]; }
    }
  }

  // ----- parity -----

  lemma {:induction false} ParityConcat(a: Bits, b: Bits)
    ensures Parity(a + b) == (Parity(a) != Parity(b))
  {
    if b == [] {
      assert a + b == a;
    } else {
      assert (a + b)[..|a + b| - 1] == a + b[..|b| - 1];
      ParityConcat(a, b[..|b| - 1]);
    }
  }

  lemma {:induction false} ParityXor(a: Bits, b: Bits)
    requires |a| == |b|
    ensures Parity(Xor(a, b)) == (Parity(a) != Parity(b))
  {
    if a != [] {
      var k := |a| - 1;
      assert Xor(a, b)[..k] == Xor(a[..k], b[..k]);
      ParityXor(a[..k], b[..k]);
    }
  }

  lemma {:induction false} ParityZeros(n: nat)
    ensures !Parity(Zeros(n))
  {
    if n > 0 {
      assert Zeros(n)[..n - 1] == Zeros(n - 1);
      ParityZeros(n - 1);
    }
  }

  /** A generator with an even number of terms keeps the parity of the bits consumed. */
  lemma {:induction false} ParityKept(g: Bits, m: Bits)
    requires |g| > 0 && Parity(g)
    ensures Parity(Register(g, m)) == Parity(m)
  {
    if m == [] {
      ParityZeros(|g|);
    } else {
      var k := |m| - 1;
      ParityKept(g, m[..k]);
      var r := Register(g, m[..k]);
      var s := r[1..] + [m[k]];
      ParityConcat([r[0]], r[1..]);
      assert r == [r[0]] + r[1..];
      ParityConcat(r[1..], [m[k]]);
      ParitySingle(r[0]);
      ParitySingle(m[k]);
      if r[0] {
        ParityXor(s, g);
      }
    }
  }

  lemma ParitySingle(b: bool)
    ensures Parity([b]) == b
  {
    assert [b][..0] == [];
  }

  lemma OddGenerator16()
    ensures Parity(G16)
  {
    ParityConcat([true], Zeros(12) + [true, false, true]);
    ParityConcat(Zeros(12), [true, false, true]);
    ParityZeros(12);
    ParitySingle(true);
    ParityConcat([true, false], [true]);
    ParityConcat([true], [false]);
    ParitySingle(false);
    assert [true, false] == [true] + [false] && [true, false, true] == [true, false] + [true];
    assert G16 == [true] + (Zeros(12) + [true, false, true]);
  }
}
