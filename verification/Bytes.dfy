/** Bytes, exclusive or, and the big- and little-endian readings of byte strings. */
module Bytes {
  type byte = b: int | 0 <= b < 256

  const TWO_31 := 0x8000_0000
  const TWO_32 := 0x1_0000_0000
  const TWO_63 := 0x8000_0000_0000_0000
  const TWO_64 := 0x1_0000_0000_0000_0000
  const TWO_128 := 0x1_0000_0000_0000_0000_0000_0000_0000_0000

  function Min(a: int, b: int): int { if a <= b then a else b }

  /** Conversion of an unsigned or 64-bit count to a signed 32-bit one. */
  function ToInt32(x: int): (r: int)
    ensures -TWO_31 <= r < TWO_31
    ensures -TWO_31 <= x < TWO_31 ==> r == x
    ensures x >= 0 ==> r <= x
    ensures (x - r) % TWO_32 == 0
  {
    var u := x % TWO_32;
    if u < TWO_31 then u else u - TWO_32
  }

  // ---------------------------------------------------------------- remainders

  lemma DivUnique(x: nat, modulus: nat, q: nat, r: nat)
    requires 0 < modulus && x == modulus * q + r && r < modulus
    ensures x / modulus == q && x % modulus == r
  {
    var d := x / modulus - q;
    assert modulus * d == r - x % modulus;
  }

  lemma ModOnce(x: nat, modulus: nat)
    requires 0 < modulus && x < 2 * modulus
    ensures x % modulus == if x < modulus then x else x - modulus
  {
    if x < modulus {
      DivUnique(x, modulus, 0, x);
    } else {
      DivUnique(x, modulus, 1, x - modulus);
    }
  }

  lemma ModOfSum(a: nat, b: nat, modulus: nat)
    requires modulus > 0
    ensures (a % modulus + b) % modulus == (a + b) % modulus
  {
    var x := a % modulus + b;
    var q := a / modulus + x / modulus;
    assert modulus * q == modulus * (a / modulus) + modulus * (x / modulus);
    DivUnique(a + b, modulus, q, x % modulus);
  }

  // ---------------------------------------------------------------- exclusive or

  /** Exclusive or of the low `bits` bits of two numbers, bit by bit. */
  function XorBits(a: nat, b: nat, bits: nat): (r: nat)
  {
    if bits == 0 then 0
    else (if a % 2 == b % 2 then 0 else 1) + 2 * XorBits(a / 2, b / 2, bits - 1)
  }

  lemma {:induction false} XorBitsTwice(a: nat, b: nat, bits: nat)
    requires a < Pow2(bits)
    ensures XorBits(a, b, bits) < Pow2(bits)
    ensures XorBits(XorBits(a, b, bits), b, bits) == a
  {
    if bits > 0 {
      XorBitsTwice(a / 2, b / 2, bits - 1);
      var low, high := if a % 2 == b % 2 then 0 else 1, XorBits(a / 2, b / 2, bits - 1);
      var x := XorBits(a, b, bits);
      assert x == low + 2 * high;
      assert XorBits(x, b, bits) == (if low == b % 2 then 0 else 1) + 2 * XorBits(high, b / 2, bits - 1);
    }
  }

  lemma {:induction false} XorBitsBound(a: nat, b: nat, bits: nat)
    ensures XorBits(a, b, bits) < Pow2(bits)
  {
    if bits > 0 {
      XorBitsBound(a / 2, b / 2, bits - 1);
    }
  }

  /** Bit k of a number. */
  function Bit(a: nat, k: nat): nat
  {
    if k == 0 then a % 2 else Bit(a / 2, k - 1)
  }

  lemma {:induction false} BitValue(a: nat, k: nat)
    ensures Bit(a, k) == a / Pow2(k) % 2
    decreases k
  {
    if k > 0 {
      BitValue(a / 2, k - 1);
      DivTwice(a, Pow2(k - 1));
    }
  }

  lemma DivTwice(x: nat, m: nat)
    requires m > 0
    ensures x / (2 * m) == x / 2 / m
  {
    var q, r := x / 2 / m, x / 2 % m;
    assert x == 2 * (m * q + r) + x % 2;
    assert 2 * (m * q) == 2 * m * q;
    DivUnique(x, 2 * m, q, 2 * r + x % 2);
  }

  /** Bit k of an exclusive or is one exactly when the two bits differ. */
  lemma {:induction false} XorBitAt(a: nat, b: nat, bits: nat, k: nat)
    requires k < bits
    ensures Bit(XorBits(a, b, bits), k) == (Bit(a, k) + Bit(b, k)) % 2
    decreases k
  {
    hide XorBits;
    XorBitsStep(a, b, bits);
    if k == 0 {
      assert Bit(XorBits(a, b, bits), k) == XorBits(a, b, bits) % 2;
    } else {
      XorBitAt(a / 2, b / 2, bits - 1, k - 1);
    }
  }

  lemma XorBitsStep(a: nat, b: nat, bits: nat)
    requires bits > 0
    ensures XorBits(a, b, bits) / 2 == XorBits(a / 2, b / 2, bits - 1)
    ensures XorBits(a, b, bits) % 2 == (a + b) % 2
  {
    var low, high := if a % 2 == b % 2 then 0 else 1, XorBits(a / 2, b / 2, bits - 1);
    assert XorBits(a, b, bits) == low + 2 * high;
    hide XorBits;
    DivUnique(XorBits(a, b, bits), 2, high, low);
    Parity(a, b);
  }

  lemma Parity(a: nat, b: nat)
    ensures (a + b) % 2 == if a % 2 == b % 2 then 0 else 1
  {
  }

  lemma Pow2Step(k: nat)
    ensures Pow2(k) == if k == 0 then 1 else 2 * Pow2(k - 1)
  {
  }

  lemma {:induction false} XorBitsOfZero(b: nat, bits: nat)
    requires b < Pow2(bits)
    ensures XorBits(0, b, bits) == b
  {
    if bits > 0 {
      XorBitsOfZero(b / 2, bits - 1);
    }
  }

  function Pow2(n: nat): (r: nat)
    ensures r > 0
  {
    if n == 0 then 1 else 2 * Pow2(n - 1)
  }

  function Xor(a: byte, b: byte): byte
  {
    XorBitsBound(a, b, 8);
    Pow2Eight();
    XorBits(a, b, 8)
  }

  lemma Pow2Eight()
    ensures Pow2(8) == 256
  {
    assert Pow2(4) == 16;
    assert Pow2(6) == 64;
  }

  /** What exclusive or is, bit by bit. */
  lemma XorMeaning(a: byte, b: byte, k: nat)
    requires k < 8
    ensures Xor(a, b) / Pow2(k) % 2 == (a / Pow2(k) % 2 + b / Pow2(k) % 2) % 2
    ensures Xor(0, b) == b
  {
    hide XorBits, Bit;
    Pow2Eight();
    XorBitAt(a, b, 8, k);
    BitValue(a, k);
    BitValue(b, k);
    BitValue(Xor(a, b), k);
    XorBitsOfZero(b, 8);
  }

  lemma XorTwice(a: byte, b: byte)
    ensures Xor(Xor(a, b), b) == a
  {
    Pow2Eight();
    XorBitsTwice(a, b, 8);
  }

  // ---------------------------------------------------------------- byte strings as numbers

  function Pow256(n: nat): (r: nat)
    ensures r > 0
  {
    if n == 0 then 1 else 256 * Pow256(n - 1)
  }

  lemma Pow256Values()
    ensures Pow256(8) == TWO_64 && Pow256(16) == TWO_128
  {
    assert Pow256(4) == TWO_32;
    assert Pow256(6) == 0x1_0000_0000_0000;
    assert Pow256(8) == TWO_64;
    assert Pow256(10) == 0x1_0000_0000_0000_0000_0000;
    assert Pow256(12) == 0x1_0000_0000_0000_0000_0000_0000;
    assert Pow256(14) == 0x1_0000_0000_0000_0000_0000_0000_0000;
  }

  lemma {:induction false} Pow256Monotone(m: nat, n: nat)
    requires m <= n
    ensures Pow256(m) <= Pow256(n)
  {
    if m < n {
      Pow256Monotone(m, n - 1);
    }
  }

  /** The number a byte string spells with its most significant byte first. */
  function BE(s: seq<byte>): nat
  {
    if s == [] then 0 else BE(s[..|s| - 1]) * 256 + s[|s| - 1]
  }

  /** The number a byte string spells with its least significant byte first. */
  function LE(s: seq<byte>): nat
  {
    if s == [] then 0 else s[0] + 256 * LE(s[1..])
  }

  function ToBE(v: nat, n: nat): (s: seq<byte>)
    ensures |s| == n
  {
    if n == 0 then [] else ToBE(v / 256, n - 1) + [v % 256]
  }

  function ToLE(v: nat, n: nat): (s: seq<byte>)
    ensures |s| == n
  {
    if n == 0 then [] else [v % 256] + ToLE(v / 256, n - 1)
  }

  function Reverse(s: seq<byte>): (r: seq<byte>)
    ensures |r| == |s|
  {
    if s == [] then [] else Reverse(s[1..]) + [s[0]]
  }

  lemma {:induction false} BEBound(s: seq<byte>)
    ensures BE(s) < Pow256(|s|)
  {
    if s != [] {
      BEBound(s[..|s| - 1]);
    }
  }

  lemma {:induction false} BEAppend(a: seq<byte>, b: seq<byte>)
    ensures BE(a + b) == BE(a) * Pow256(|b|) + BE(b)
  {
    if b == [] {
      assert a + b == a;
    } else {
      var b' := b[..|b| - 1];
      BEAppend(a, b');
      assert (a + b)[..|a + b| - 1] == a + b';
      assert BE(a + b) == BE(a + b') * 256 + b[|b| - 1];
      assert (BE(a) * Pow256(|b'|)) * 256 == BE(a) * Pow256(|b|);
    }
  }

  lemma {:induction false} BEOfToBE(v: nat, n: nat)
    requires v < Pow256(n)
    ensures BE(ToBE(v, n)) == v
  {
    if n > 0 {
      BEOfToBE(v / 256, n - 1);
      var s := ToBE(v, n);
      assert s[..|s| - 1] == ToBE(v / 256, n - 1);
    }
  }

  lemma {:induction false} ToBEOfBE(s: seq<byte>)
    ensures ToBE(BE(s), |s|) == s
  {
    if s != [] {
      ToBEOfBE(s[..|s| - 1]);
      LastBE(s);
      hide BE;
    }
  }

  lemma LastBE(s: seq<byte>)
    requires s != []
    ensures BE(s) / 256 == BE(s[..|s| - 1]) && BE(s) % 256 == s[|s| - 1]
  {
    DivUnique(BE(s), 256, BE(s[..|s| - 1]), s[|s| - 1]);
  }

  lemma FirstLE(s: seq<byte>)
    requires s != []
    ensures LE(s) % 256 == s[0] && LE(s) / 256 == LE(s[1..])
  {
    DivUnique(LE(s), 256, LE(s[1..]), s[0]);
  }

  lemma {:induction false} ToLEOfLE(s: seq<byte>)
    ensures ToLE(LE(s), |s|) == s
  {
    if s != [] {
      ToLEOfLE(s[1..]);
      FirstLE(s);
      hide LE;
    }
  }

  /** Three and four bytes with their weights, the most significant first. */
  lemma BEWeights(s: seq<byte>)
    ensures |s| == 3 ==> BE(s) == (s[0] as int) * 0x1_0000 + (s[1] as int) * 0x100 + s[2]
    ensures |s| == 4 ==> BE(s) == (s[0] as int) * 0x100_0000 + (s[1] as int) * 0x1_0000 + (s[2] as int) * 0x100 + s[3]
  {
    if |s| == 3 {
      assert s == ([s[0]] + [s[1]]) + [s[2]];
      BEOfThree(s);
    } else if |s| == 4 {
      BEOfThree(s[..3]);
    }
  }

  lemma BEOfThree(s: seq<byte>)
    requires |s| == 3
    ensures BE(s) == (s[0] as int) * 0x1_0000 + (s[1] as int) * 0x100 + s[2]
  {
    var two := s[..2];
    var one := two[..1];
    assert BE(one[..0]) == 0;
    assert BE(one) == s[0];
    assert BE(two) == (s[0] as int) * 0x100 + s[1];
  }

  lemma {:induction false} BEOfReverse(s: seq<byte>)
    ensures BE(Reverse(s)) == LE(s)
  {
    if s != [] {
      BEOfReverse(s[1..]);
      var r := Reverse(s);
      assert r[..|r| - 1] == Reverse(s[1..]);
    }
  }

  lemma {:induction false} ReverseTwice(s: seq<byte>)
    ensures Reverse(Reverse(s)) == s
  {
    if s != [] {
      ReverseTwice(s[1..]);
      ReverseAppend(Reverse(s[1..]), s[0]);
    }
  }

  lemma {:induction false} ReverseAppend(s: seq<byte>, b: byte)
    ensures Reverse(s + [b]) == [b] + Reverse(s)
  {
    if s == [] {
      assert s + [b] == [b];
    } else {
      ReverseAppend(s[1..], b);
      assert (s + [b])[1..] == s[1..] + [b];
    }
  }

  // ---------------------------------------------------------------- pieces

  function Concat(parts: seq<seq<byte>>): seq<byte>
  {
    if parts == [] then [] else parts[0] + Concat(parts[1..])
  }

  lemma {:induction false} ConcatAppend(a: seq<seq<byte>>, b: seq<seq<byte>>)
    ensures Concat(a + b) == Concat(a) + Concat(b)
  {
    if a == [] {
      assert a + b == b;
    } else {
      ConcatAppend(a[1..], b);
      assert (a + b)[0] == a[0] && (a + b)[1..] == a[1..] + b;
      JoinThree(a[0], Concat(a[1..]), Concat(b));
    }
  }

  lemma JoinThree(a: seq<byte>, b: seq<byte>, c: seq<byte>)
    ensures (a + b) + c == a + (b + c)
  {
  }

  /** The front of a joined sequence and what is left. */
  lemma FrontAndRest(whole: seq<byte>, front: seq<byte>, rest: seq<byte>)
    requires whole == front + rest
    ensures front == whole[..|front|] && rest == whole[|front|..]
  {
  }

  lemma TailOfTail(whole: seq<byte>, at: nat, n: nat)
    requires at + n <= |whole|
    ensures whole[at..][..n] == whole[at..at + n] && whole[at..][n..] == whole[at + n..]
  {
  }

  lemma PrefixThenSlice(s: seq<byte>, at: nat, n: nat)
    requires at + n <= |s|
    ensures s[at..][..n] == s[at..at + n]
    ensures s[..at] + s[at..at + n] == s[..at + n]
  {
  }
}
