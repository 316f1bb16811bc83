/**
 Counter mode as section 6.5 of NIST SP 800-38A defines it, with the standard incrementing
 function of its appendix B.1 on the whole 128-bit block, and the 64-bit counter step the
 SDK uses to start in the middle of an object.
 */
module Ctr {
  import opened Bytes

  const BLK_SIZE := 16

  /** The output of one block-cipher call. */
  type Block = b: seq<byte> | |b| == 16 witness [0, 0, 0, 0, 0, 0, 0, 0, 0, 0, 0, 0, 0, 0, 0, 0]

  /** The block cipher: any function from key and counter block to a block. */
  type BlockFn = (seq<byte>, seq<byte>) -> Block

  // ---------------------------------------------------------------- counter blocks

  /** The k-th counter block after `iv`: the 128-bit number grows by k and wraps. */
  function CounterBlock(iv: Block, k: nat): Block
  {
    ToBE((BE(iv) + k) % TWO_128, |iv|)
  }

  lemma CounterBlockValue(iv: Block, k: nat)
    ensures BE(CounterBlock(iv, k)) == (BE(iv) + k) % TWO_128
  {
    hide BE, ToBE, Pow256;
    Pow256Values();
    BEOfToBE((BE(iv) + k) % TWO_128, |iv|);
  }

  lemma CounterBlockAdds(iv: Block, a: nat, b: nat)
    ensures CounterBlock(CounterBlock(iv, a), b) == CounterBlock(iv, a + b)
  {
    hide BE, ToBE;
    CounterBlockValue(iv, a);
    ModOfSum(BE(iv) + a, b, TWO_128);
  }

  lemma CounterBlockZero(iv: Block)
    ensures CounterBlock(iv, 0) == iv
  {
    hide BE, ToBE, Pow256;
    Pow256Values();
    BEBound(iv);
    ModOnce(BE(iv), TWO_128);
    ToBEOfBE(iv);
  }

  // ---------------------------------------------------------------- bswap and IncCTRCounter

  /** Byte reversal of a 64-bit word by eight shift-and-or steps. */
  function Bswap(i: nat, j: nat := 0, n: nat := 0): nat
    requires n <= 8
    decreases 8 - n
  {
    if n == 8 then j else Bswap(i / 256, (j * 256) % TWO_64 + i % 256, n + 1)
  }

  lemma ShiftInDigit(j: nat, b: nat, p: nat)
    ensures (j * 256 + b) * p == j * (256 * p) + b * p
  {
  }

  lemma BswapStep(i: nat, j: nat, n: nat)
    requires n < 8 && j * 256 < TWO_64
    ensures Bswap(i, j, n) == Bswap(i / 256, j * 256 + i % 256, n + 1)
  {
    ModOnce(j * 256, TWO_64);
  }

  lemma FirstDigit(s: seq<byte>)
    requires s != []
    ensures LE(s) % 256 == s[0] && LE(s) / 256 == LE(s[1..])
    ensures BE(s) == s[0] * Pow256(|s| - 1) + BE(s[1..])
  {
    FirstLE(s);
    var b := [s[0]];
    assert s == b + s[1..];
    assert BE(b[..0]) == 0;
    BEAppend(b, s[1..]);
  }

  lemma {:induction false} BswapDigits(s: seq<byte>, j: nat, n: nat)
    requires n <= 8 && |s| == 8 - n && j < Pow256(n)
    ensures Bswap(LE(s), j, n) == j * Pow256(|s|) + BE(s)
    decreases 8 - n
  {
    if n < 8 {
      var t := s[1..];
      var j' := j * 256 + s[0];
      assert j' < Pow256(n + 1) <= TWO_64 by {
        Pow256Values();
        Pow256Monotone(n + 1, 8);
      }
      FirstDigit(s);
      BswapStep(LE(s), j, n);
      BswapDigits(t, j', n + 1);
      ShiftInDigit(j, s[0], Pow256(|t|));
    }
  }

  /** On a little-endian machine bswap turns the loaded word into the big-endian number. */
  lemma BswapOfLE(s: seq<byte>)
    requires |s| == 8
    ensures Bswap(LE(s)) == BE(s)
  {
    BswapDigits(s, 0, 0);
  }

  lemma BswapOfBE(s: seq<byte>)
    requires |s| == 8
    ensures Bswap(BE(s)) == LE(s)
  {
    BEOfReverse(s);
    BEOfReverse(Reverse(s));
    ReverseTwice(s);
    BswapOfLE(Reverse(s));
  }

  lemma BswapInvolution(w: nat)
    requires w < TWO_64
    ensures Bswap(Bswap(w)) == w
  {
    Pow256Values();
    BEOfToBE(w, 8);
    BswapOfBE(ToBE(w, 8));
    BswapOfLE(ToBE(w, 8));
  }

  /** A 64-bit word of a buffer, read as a big-endian number, plus n. */
  function AddToWord(word: seq<byte>, n: nat): (r: seq<byte>)
    ensures |r| == |word|
  {
    ToBE((BE(word) + n) % TWO_64, |word|)
  }

  /** The same through a little-endian load, two byte swaps and a little-endian store. */
  function AddToWordSwapped(word: seq<byte>, n: nat): (r: seq<byte>)
    ensures |r| == |word|
  {
    ToLE(Bswap((Bswap(LE(word)) + n) % TWO_64), |word|)
  }

  lemma AddToWordValue(word: seq<byte>, n: nat)
    requires |word| == 8
    ensures BE(AddToWord(word, n)) == (BE(word) + n) % TWO_64
  {
    hide BE, ToBE, Pow256;
    Pow256Values();
    BEOfToBE((BE(word) + n) % TWO_64, |word|);
  }

  lemma AddToWordEndianFree(word: seq<byte>, n: nat)
    requires |word| == 8
    ensures AddToWordSwapped(word, n) == AddToWord(word, n)
  {
    hide BE, LE, ToBE, ToLE, Bswap;
    var sum := AddToWord(word, n);
    AddToWordValue(word, n);
    BswapOfLE(word);
    BswapOfBE(sum);
    ToLEOfLE(sum);
  }

  lemma AddToWordTwice(word: seq<byte>, m: nat, n: nat)
    requires |word| == 8
    ensures AddToWord(AddToWord(word, m), n) == AddToWord(word, (m + n) % TWO_64)
  {
    hide BE, ToBE;
    AddToWordValue(word, m);
    ModOfSum(BE(word) + m, n, TWO_64);
    ModOfSum(m + n, BE(word), TWO_64);
  }

  /** Adds to the last eight bytes of a counter and leaves the others. */
  function IncCTRCounter(counter: seq<byte>, numberOfBlocks: nat, littleEndian: bool := true): (r: seq<byte>)
    requires |counter| >= 8
    ensures |r| == |counter|
    ensures r[..|r| - 8] == counter[..|r| - 8]
    ensures r[|r| - 8..] == AddToWord(counter[|r| - 8..], numberOfBlocks)
  {
    var at := |counter| - 8;
    var word := counter[at..];
    AddToWordEndianFree(word, numberOfBlocks);
    counter[..at] +
    if littleEndian then AddToWordSwapped(word, numberOfBlocks) else AddToWord(word, numberOfBlocks)
  }

  lemma SameEnds(r: seq<byte>, s: seq<byte>, at: nat)
    requires at <= |r| == |s| && r[..at] == s[..at] && r[at..] == s[at..]
    ensures r == s
  {
    assert r == r[..at] + r[at..];
    assert s == s[..at] + s[at..];
  }

  /** Both endian branches write the same bytes. */
  lemma IncCTRCounterEndianFree(c: seq<byte>, n: nat)
    requires |c| >= 8
    ensures IncCTRCounter(c, n, true) == IncCTRCounter(c, n, false)
  {
    SameEnds(IncCTRCounter(c, n, true), IncCTRCounter(c, n, false), |c| - 8);
  }

  lemma IncCTRCounterAdds(c: seq<byte>, m: nat, n: nat, le: bool)
    requires |c| >= 8
    ensures IncCTRCounter(IncCTRCounter(c, m, le), n, le) == IncCTRCounter(c, (m + n) % TWO_64, le)
  {
    AddToWordTwice(c[|c| - 8..], m, n);
    SameEnds(IncCTRCounter(IncCTRCounter(c, m, le), n, le), IncCTRCounter(c, (m + n) % TWO_64, le), |c| - 8);
  }

  /** The low half of a counter block, which is all that IncCTRCounter moves. */
  function LowHalf(iv: Block): nat
  {
    BE(iv[8..])
  }

  lemma BlockSplits(iv: Block)
    ensures BE(iv) == BE(iv[..8]) * TWO_64 + LowHalf(iv)
    ensures LowHalf(iv) < TWO_64 && BE(iv) < TWO_128
  {
    assert iv == iv[..8] + iv[8..];
    BEAppend(iv[..8], iv[8..]);
    BEBound(iv[8..]);
    BEBound(iv);
    Pow256Values();
  }

  /** The 64-bit step is the standard 128-bit increment exactly when the low half does not overflow. */
  lemma IncCTRCounterIsIncrement(iv: Block, n: nat, le: bool)
    requires n < TWO_64
    ensures IncCTRCounter(iv, n, le) == CounterBlock(iv, n) <==> LowHalf(iv) + n < TWO_64
  {
    hide BE, ToBE, IncCTRCounter, CounterBlock, AddToWord;
    var r: Block := IncCTRCounter(iv, n, le);
    AddToWordValue(iv[8..], n);
    BlockSplits(iv);
    BlockSplits(r);
    CounterBlockValue(iv, n);
    ModOnce(LowHalf(iv) + n, TWO_64);
    if LowHalf(iv) + n < TWO_64 {
      ToBEOfBE(r);
      ToBEOfBE(CounterBlock(iv, n));
      ModOnce(BE(iv) + n, TWO_128);
    } else {
      ModOnce(BE(iv) + n, TWO_128);
    }
  }

  /** Four zero bytes ahead leave four that count. */
  lemma ZerosAhead(s: seq<byte>)
    requires |s| == 8 && s[..4] == [0, 0, 0, 0]
    ensures BE(s) < TWO_32
  {
    var z := s[..4];
    assert z[..3][..2][..1][..0] == [];
    assert BE(z[..3][..2][..1]) == 0;
    assert BE(z[..3][..2]) == 0;
    assert BE(z) == 0;
    assert Pow256(4) == TWO_32;
    hide BE, Pow256;
    BEAppend(z, s[4..]);
    BEBound(s[4..]);
    assert s == z + s[4..];
  }

  /** Initial vectors from generateKeyIV have bytes 8..11 zero, which leaves room for 2^64 - 2^32 blocks. */
  lemma GeneratedIVHasRoom(iv: Block, n: nat)
    requires iv[8..12] == [0, 0, 0, 0] && n <= TWO_64 - TWO_32
    ensures LowHalf(iv) < TWO_32
    ensures IncCTRCounter(iv, n, true) == CounterBlock(iv, n)
  {
    hide BE, IncCTRCounter, CounterBlock;
    assert iv[8..][..4] == iv[8..12];
    ZerosAhead(iv[8..]);
    IncCTRCounterIsIncrement(iv, n, true);
  }

  // ---------------------------------------------------------------- key stream

  /** Byte p of the key stream: byte p mod 16 of the cipher applied to counter block p div 16. */
  function KeyByte(e: BlockFn, key: seq<byte>, iv: Block, p: nat): byte
  {
    e(key, CounterBlock(iv, p / BLK_SIZE))[p % BLK_SIZE]
  }

  /** One-shot CTR of `data` placed at key-stream position `pos`. */
  function Crypt(e: BlockFn, key: seq<byte>, iv: Block, pos: nat, data: seq<byte>): (r: seq<byte>)
    ensures |r| == |data|
    decreases |data|
  {
    if data == [] then []
    else [Xor(data[0], KeyByte(e, key, iv, pos))] + Crypt(e, key, iv, pos + 1, data[1..])
  }

  lemma {:induction false} CryptAt(e: BlockFn, key: seq<byte>, iv: Block, pos: nat, data: seq<byte>, i: nat)
    requires i < |data|
    ensures Crypt(e, key, iv, pos, data)[i] == Xor(data[i], KeyByte(e, key, iv, pos + i))
    decreases i
  {
    if i > 0 {
      CryptAt(e, key, iv, pos + 1, data[1..], i - 1);
    }
  }

  /** Encrypting sixteen zero bytes at a block boundary shows the output block of the cipher itself. */
  lemma ZerosShowTheBlock(e: BlockFn, key: seq<byte>, iv: Block, k: nat)
    ensures Crypt(e, key, iv, BLK_SIZE * k, seq(BLK_SIZE, _ => 0)) == e(key, CounterBlock(iv, k))
  {
    hide CounterBlock, Xor;
    var zeros: seq<byte> := seq(BLK_SIZE, _ => 0);
    var c, block := Crypt(e, key, iv, BLK_SIZE * k, zeros), e(key, CounterBlock(iv, k));
    forall i | 0 <= i < BLK_SIZE
      ensures c[i] == block[i]
    {
      CryptAt(e, key, iv, BLK_SIZE * k, zeros, i);
      assert (BLK_SIZE * k + i) / BLK_SIZE == k && (BLK_SIZE * k + i) % BLK_SIZE == i;
      XorMeaning(0, block[i], 0);
    }
  }

  lemma {:induction false} CryptAppend(e: BlockFn, key: seq<byte>, iv: Block, pos: nat, a: seq<byte>, b: seq<byte>)
    ensures Crypt(e, key, iv, pos, a + b) == Crypt(e, key, iv, pos, a) + Crypt(e, key, iv, pos + |a|, b)
    decreases |a|
  {
    hide KeyByte, Xor;
    if a == [] {
      assert a + b == b;
    } else {
      CryptAppend(e, key, iv, pos + 1, a[1..], b);
      assert (a + b)[1..] == a[1..] + b;
    }
  }

  /** Every tail of the ciphertext is the tail of the plaintext encrypted further along the key stream. */
  lemma CryptTail(e: BlockFn, key: seq<byte>, iv: Block, pos: nat, data: seq<byte>, lo: nat)
    requires lo <= |data|
    ensures Crypt(e, key, iv, pos, data)[lo..] == Crypt(e, key, iv, pos + lo, data[lo..])
  {
    hide Crypt;
    CryptAppend(e, key, iv, pos, data[..lo], data[lo..]);
    assert data == data[..lo] + data[lo..];
    var front, rest := Crypt(e, key, iv, pos, data[..lo]), Crypt(e, key, iv, pos + lo, data[lo..]);
    FrontAndRest(Crypt(e, key, iv, pos, data), front, rest);
  }

  lemma {:induction false} CryptTwice(e: BlockFn, key: seq<byte>, iv: Block, pos: nat, data: seq<byte>)
    ensures Crypt(e, key, iv, pos, Crypt(e, key, iv, pos, data)) == data
    decreases |data|
  {
    if data != [] {
      CryptTwice(e, key, iv, pos + 1, data[1..]);
      XorTwice(data[0], KeyByte(e, key, iv, pos));
    }
  }

  /** Starting k blocks later is the same as reading the key stream 16k bytes in. */
  lemma {:induction false} CryptFromBlock(e: BlockFn, key: seq<byte>, iv: Block, k: nat, pos: nat, data: seq<byte>)
    ensures Crypt(e, key, CounterBlock(iv, k), pos, data) == Crypt(e, key, iv, BLK_SIZE * k + pos, data)
    decreases |data|
  {
    hide KeyByte, Xor, CounterBlock;
    if data != [] {
      assert BLK_SIZE * k + (pos + 1) == (BLK_SIZE * k + pos) + 1;
      KeyByteFromBlock(e, key, iv, k, pos);
      CryptFromBlock(e, key, iv, k, pos + 1, data[1..]);
    }
  }

  lemma KeyByteFromBlock(e: BlockFn, key: seq<byte>, iv: Block, k: nat, p: nat)
    ensures KeyByte(e, key, CounterBlock(iv, k), p) == KeyByte(e, key, iv, BLK_SIZE * k + p)
  {
    hide CounterBlock;
    CounterBlockAdds(iv, k, p / BLK_SIZE);
    assert (BLK_SIZE * k + p) / BLK_SIZE == k + p / BLK_SIZE;
    assert (BLK_SIZE * k + p) % BLK_SIZE == p % BLK_SIZE;
  }
}
