/** Words as sequences of bits, least significant bit first, and the C operators of the icon
    decoder on unsigned 32-bit words. */
module Bits {

  type byte = x: int | 0 <= x < 256

  function Pow2(n: nat): (p: nat)
    ensures p > 0
  {
    if n == 0 then 1 else 2 * Pow2(n - 1)
  }

  lemma {:induction false} Pow2Monotone(a: nat, b: nat)
    requires a <= b
    ensures Pow2(a) <= Pow2(b)
    ensures a < b ==> Pow2(a) < Pow2(b)
  {
    if a < b {
      Pow2Monotone(a, b - 1);
    }
  }

  lemma Pow2Constants()
    ensures Pow2(2) == 4 && Pow2(3) == 8 && Pow2(8) == 256
    ensures Pow2(12) == 4096
  {
    assert Pow2(4) == 16;
    assert Pow2(6) == 64;
    assert Pow2(10) == 1024;
  }

  // The w low bits of v.
  function Cut(v: nat, w: nat): (bits: seq<bool>)
    ensures |bits| == w
  {
    if w == 0 then [] else [v % 2 == 1] + Cut(v / 2, w - 1)
  }

  function Value(bits: seq<bool>): nat
  {
    if bits == [] then 0 else (if bits[0] then 1 else 0) + 2 * Value(bits[1..])
  }

  lemma {:induction false} ValueBound(bits: seq<bool>)
    ensures Value(bits) < Pow2(|bits|)
  {
    if bits != [] {
      ValueBound(bits[1..]);
    }
  }

  lemma {:induction false} ValueOfCut(v: nat, w: nat)
    requires v < Pow2(w)
    ensures Value(Cut(v, w)) == v
  {
    if w != 0 {
      ValueOfCut(v / 2, w - 1);
      assert Cut(v, w)[1..] == Cut(v / 2, w - 1);
    }
  }

  lemma {:induction false} CutOfValue(bits: seq<bool>)
    ensures Cut(Value(bits), |bits|) == bits
  {
    if bits != [] {
      CutOfValue(bits[1..]);
      assert Value(bits) / 2 == Value(bits[1..]);
      assert bits == [bits[0]] + bits[1..];
    }
  }

  // ----- operators on uint32_t

  function BitOr(a: nat, b: nat): nat
    decreases a + b
  {
    if a == 0 && b == 0 then 0
    else (if a % 2 == 1 || b % 2 == 1 then 1 else 0) + 2 * BitOr(a / 2, b / 2)
  }

  function BitAnd(a: nat, b: nat): nat
    decreases a
  {
    if a == 0 then 0
    else (if a % 2 == 1 && b % 2 == 1 then 1 else 0) + 2 * BitAnd(a / 2, b / 2)
  }

  function Shl32(v: nat, n: nat): nat
  {
    if n == 0 then v else 2 * Shl32(v, n - 1) % 0x1_0000_0000
  }

  function Shr(v: nat, n: nat): nat
    decreases n
  {
    if n == 0 then v else Shr(v / 2, n - 1)
  }

  lemma {:induction false} Shl32Bound(v: nat, w: nat, n: nat)
    requires v < Pow2(w) && w + n <= 32
    ensures Shl32(v, n) < Pow2(w + n)
    ensures n > 0 ==> Shl32(v, n) == 2 * Shl32(v, n - 1)
  {
    if n > 0 {
      Shl32Bound(v, w, n - 1);
      var x := Shl32(v, n - 1);
      assert 2 * x < Pow2(w + n) <= 0x1_0000_0000 by {
        assert Pow2(w + n) == 2 * Pow2(w + (n - 1));
        Pow2Monotone(w + n, 32);
        Pow2Of32();
      }
      hide Pow2;
      assert 2 * x % 0x1_0000_0000 == 2 * x;
    }
  }

  lemma Pow2Of32()
    ensures Pow2(32) == 0x1_0000_0000
  {
    assert Pow2(8) == 256;
    assert Pow2(16) == 65536;
    assert Pow2(24) == 0x100_0000;
  }

  // bit_buf |= byte << bit_count puts the byte's bits above the pending ones.
  lemma {:induction false} OrAppends(low: seq<bool>, high: seq<bool>)
    requires |low| + |high| <= 32
    ensures BitOr(Value(low), Shl32(Value(high), |low|)) == Value(low + high)
    decreases |low|
  {
    var n := |low|;
    ValueBound(high);
    if n == 0 {
      OrZero(Value(high));
      assert low + high == high;
    } else {
      var rest := low[1..];
      OrAppends(rest, high);
      Shl32Bound(Value(high), |high|, n);
      assert (low + high)[1..] == rest + high;
      OrStep(low[0], Value(rest), Shl32(Value(high), n - 1));
    }
  }

  lemma OrStep(b: bool, a: nat, c: nat)
    ensures BitOr((if b then 1 else 0) + 2 * a, 2 * c) == (if b then 1 else 0) + 2 * BitOr(a, c)
  {
    assert ((if b then 1 else 0) + 2 * a) / 2 == a && (2 * c) / 2 == c;
  }

  lemma {:induction false} OrZero(v: nat)
    ensures BitOr(0, v) == v
  {
    if v != 0 {
      OrZero(v / 2);
    }
  }

  // bit_buf >>= w drops the w low bits ...
  lemma {:induction false} ShrDrops(bits: seq<bool>, w: nat)
    requires w <= |bits|
    ensures Shr(Value(bits), w) == Value(bits[w..])
    decreases w
  {
    if w == 0 {
      assert bits[0..] == bits;
    } else {
      ShrDrops(bits[1..], w - 1);
      assert Value(bits) / 2 == Value(bits[1..]);
      assert bits[1..][w - 1..] == bits[w..];
    }
  }

  // ... and bit_buf & ((1 << w) - 1) keeps them.
  lemma {:induction false} MaskKeeps(bits: seq<bool>, w: nat)
    requires w <= |bits|
    ensures BitAnd(Value(bits), Pow2(w) - 1) == Value(bits[..w])
    decreases w
  {
    if w == 0 {
      AndZero(Value(bits));
    } else {
      MaskKeeps(bits[1..], w - 1);
      assert bits[..w][1..] == bits[1..][..w - 1];
      AndStep(bits[0], Value(bits[1..]), Pow2(w - 1) - 1);
    }
  }

  lemma AndStep(b: bool, a: nat, m: nat)
    ensures BitAnd((if b then 1 else 0) + 2 * a, 1 + 2 * m) == (if b then 1 else 0) + 2 * BitAnd(a, m)
  {
    var n := (if b then 1 else 0) + 2 * a;
    assert n / 2 == a && (1 + 2 * m) / 2 == m && (1 + 2 * m) % 2 == 1;
    assert n % 2 == if b then 1 else 0;
  }

  lemma {:induction false} AndZero(a: nat)
    ensures BitAnd(a, 0) == 0
  {
    if a != 0 {
      AndZero(a / 2);
    }
  }

  // ----- single bits

  lemma AndOne(n: nat)
    ensures BitAnd(n, 1) == n % 2
  {
    AndZero(n / 2);
  }

  lemma AndDouble(n: nat, m: nat)
    ensures BitAnd(n, 2 * m) == 2 * BitAnd(n / 2, m)
  {
    assert 2 * m % 2 == 0 && 2 * m / 2 == m;
    if n == 0 {
      assert BitAnd(n / 2, m) == 0;
    }
  }

  lemma LowThree(n: nat)
    ensures BitAnd(n, 7) == n % 8
  {
    AndOne(n / 2 / 2);
    assert BitAnd(n / 2, 3) == n / 2 % 2 + 2 * BitAnd(n / 2 / 2, 1);
    assert BitAnd(n, 7) == n % 2 + 2 * BitAnd(n / 2, 3);
  }

  lemma {:induction false} ShiftedOne(n: nat)
    requires n < 32
    ensures Shl32(1, n) == Pow2(n)
  {
    if n > 0 {
      ShiftedOne(n - 1);
      assert Pow2(1) == 2;
      Shl32Bound(1, 1, n);
    }
  }

  // ----- byte streams as bit streams

  function BitsOf(bytes: seq<byte>): (bits: seq<bool>)
    ensures |bits| == 8 * |bytes|
  {
    if bytes == [] then [] else Cut(bytes[0], 8) + BitsOf(bytes[1..])
  }

  lemma {:induction false} BitsOfAppend(a: seq<byte>, b: seq<byte>)
    ensures BitsOf(a + b) == BitsOf(a) + BitsOf(b)
  {
    if a == [] {
      assert a + b == b;
    } else {
      assert (a + b)[1..] == a[1..] + b;
      BitsOfAppend(a[1..], b);
    }
  }

  // Packs bits into bytes, padding the last one with zero bits.
  function Pack(bits: seq<bool>): (bytes: seq<byte>)
    decreases |bits|
  {
    if bits == [] then []
    else
      var n := if |bits| < 8 then |bits| else 8;
      ValueBound(bits[..n]);
      Pow2Monotone(n, 8);
      Pow2Constants();
      [Value(bits[..n])] + Pack(bits[n..])
  }

  lemma {:induction false} PackKeepsBits(bits: seq<bool>)
    ensures bits <= BitsOf(Pack(bits))
    decreases |bits|
  {
    if bits != [] {
      var n := if |bits| < 8 then |bits| else 8;
      var v := Value(bits[..n]);
      PackKeepsBits(bits[n..]);
      assert Pack(bits)[1..] == Pack(bits[n..]);
      CutPrefix(v, n, 8);
      CutOfValue(bits[..n]);
      assert bits == bits[..n] + bits[n..];
      if n < 8 {
        assert bits[..n] == bits;
      }
    }
  }

  lemma {:induction false} CutPrefix(v: nat, n: nat, w: nat)
    requires n <= w
    ensures Cut(v, w)[..n] == Cut(v, n)
  {
    if n != 0 {
      CutPrefix(v / 2, n - 1, w - 1);
      assert Cut(v, w)[..n] == [v % 2 == 1] + Cut(v / 2, w - 1)[..n - 1];
    }
  }
}
