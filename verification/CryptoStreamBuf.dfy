/**
 The client-side encryption stream buffer: reads encrypt, writes decrypt, both through
 16-byte blocks and a partial-block buffer. The specification of a read is a window on the
 bytes still pending; the specification of a write is what the sink would hold if the
 buffer were destroyed at once.
 */
module CryptoStreamBuf {
  import opened Bytes
  import opened Ctr

  // ---------------------------------------------------------------- the wrapped buffer

  datatype SeekDir = Beg | Cur | End

  /** `b` written over `d` at `p`, extending `d` where needed. */
  function Overwrite(d: seq<byte>, p: nat, b: seq<byte>): (r: seq<byte>)
    requires p <= |d|
    ensures |r| == if p + |b| <= |d| then |d| else p + |b|
    ensures forall i | 0 <= i < |r| :: r[i] == if p <= i < p + |b| then b[i - p] else d[i]
  {
    d[..p] + b + if p + |b| <= |d| then d[p + |b|..] else []
  }

  lemma OverwriteAppend(d: seq<byte>, p: nat, a: seq<byte>, b: seq<byte>)
    requires p <= |d|
    ensures Overwrite(Overwrite(d, p, a), p + |a|, b) == Overwrite(d, p, a + b)
  {
  }

  /** An in-memory std::streambuf with separate get and put positions. */
  class StreamBuf {
    var data: seq<byte>
    var getPos: nat
    var putPos: nat

    ghost predicate Valid()
      reads this
    {
      getPos <= |data| && putPos <= |data|
    }

    constructor (data: seq<byte>)
      ensures Valid() && this.data == data && getPos == 0 && putPos == 0
    {
      this.data := data;
      getPos, putPos := 0, 0;
    }

    method Sgetn(count: nat) returns (r: seq<byte>)
      requires Valid()
      modifies `getPos
      ensures Valid() && getPos == old(getPos) + |r|
      ensures |r| == Min(count, |data| - old(getPos)) && r == data[old(getPos)..getPos]
    {
      var n := Min(count, |data| - getPos);
      r := data[getPos..getPos + n];
      getPos := getPos + n;
    }

    method Sputn(b: seq<byte>)
      requires Valid()
      modifies `data, `putPos
      ensures Valid() && data == Overwrite(old(data), old(putPos), b) && putPos == old(putPos) + |b|
    {
      data := Overwrite(data, putPos, b);
      putPos := putPos + |b|;
    }

    /** Moves the selected positions, or fails with -1 and moves nothing. */
    method PubSeekpos(pos: int, input: bool, output: bool) returns (r: int)
      requires Valid()
      modifies `getPos, `putPos
      ensures Valid()
      ensures r == if (input || output) && 0 <= pos <= |data| then pos else -1
      ensures getPos == if input && r != -1 then pos else old(getPos)
      ensures putPos == if output && r != -1 then pos else old(putPos)
    {
      r := -1;
      if (input || output) && 0 <= pos <= |data| {
        r := pos;
        if input { getPos := pos; }
        if output { putPos := pos; }
      }
    }

    /** The absolute target of a relative seek; moving both positions from the current one fails. */
    function Target(off: int, way: SeekDir, input: bool, output: bool): int
      reads this
    {
      match way
      case Beg => off
      case End => |data| + off
      case Cur => if input && output then -1 else if input then getPos + off else putPos + off
    }

    method PubSeekoff(off: int, way: SeekDir, input: bool, output: bool) returns (r: int)
      requires Valid()
      modifies `getPos, `putPos
      ensures Valid()
      ensures var t := match way
          case Beg => off
          case End => |data| + off
          case Cur => if input && output then -1 else off + old(if input then getPos else putPos);
        && r == (if (input || output) && 0 <= t <= |data| then t else -1)
        && getPos == (if input && r != -1 then t else old(getPos))
        && putPos == (if output && r != -1 then t else old(putPos))
    {
      var t := Target(off, way, input, output);
      r := PubSeekpos(t, input, output);
    }
  }

  // ---------------------------------------------------------------- the cipher object

  /** An EVP context in counter mode: key, initial counter and key-stream bytes used so far. */
  datatype CtrContext = CtrContext(key: seq<byte>, iv: Block, pos: nat)

  class SymmetricCipher {
    const block: BlockFn
    var encryptCtx: CtrContext
    var decryptCtx: CtrContext

    constructor (block: BlockFn)
      ensures this.block == block
    {
      this.block := block;
    }

    method EncryptInit(key: seq<byte>, iv: Block)
      modifies `encryptCtx
      ensures encryptCtx == CtrContext(key, iv, 0)
    {
      encryptCtx := CtrContext(key, iv, 0);
    }

    method Encrypt(src: seq<byte>) returns (dst: seq<byte>)
      modifies `encryptCtx
      ensures dst == Crypt(block, old(encryptCtx).key, old(encryptCtx).iv, old(encryptCtx).pos, src)
      ensures var ctx := old(encryptCtx);
        forall i | 0 <= i < |src| ::
          dst[i] == Xor(src[i], block(ctx.key, CounterBlock(ctx.iv, (ctx.pos + i) / 16))[(ctx.pos + i) % 16])
      ensures encryptCtx == old(encryptCtx).(pos := old(encryptCtx).pos + |src|)
    {
      hide Crypt, CounterBlock, Xor;
      dst := Crypt(block, encryptCtx.key, encryptCtx.iv, encryptCtx.pos, src);
      forall i | 0 <= i < |src|
        ensures dst[i] == Xor(src[i], KeyByte(block, encryptCtx.key, encryptCtx.iv, encryptCtx.pos + i))
      {
        CryptAt(block, encryptCtx.key, encryptCtx.iv, encryptCtx.pos, src, i);
      }
      encryptCtx := encryptCtx.(pos := encryptCtx.pos + |src|);
    }

    method DecryptInit(key: seq<byte>, iv: Block)
      modifies `decryptCtx
      ensures decryptCtx == CtrContext(key, iv, 0)
    {
      decryptCtx := CtrContext(key, iv, 0);
    }

    method Decrypt(src: seq<byte>) returns (dst: seq<byte>)
      modifies `decryptCtx
      ensures dst == Crypt(block, old(decryptCtx).key, old(decryptCtx).iv, old(decryptCtx).pos, src)
      ensures var ctx := old(decryptCtx);
        forall i | 0 <= i < |src| ::
          dst[i] == Xor(src[i], block(ctx.key, CounterBlock(ctx.iv, (ctx.pos + i) / 16))[(ctx.pos + i) % 16])
      ensures decryptCtx == old(decryptCtx).(pos := old(decryptCtx).pos + |src|)
    {
      hide Crypt, CounterBlock, Xor;
      dst := Crypt(block, decryptCtx.key, decryptCtx.iv, decryptCtx.pos, src);
      forall i | 0 <= i < |src|
        ensures dst[i] == Xor(src[i], KeyByte(block, decryptCtx.key, decryptCtx.iv, decryptCtx.pos + i))
      {
        CryptAt(block, decryptCtx.key, decryptCtx.iv, decryptCtx.pos, src, i);
      }
      decryptCtx := decryptCtx.(pos := decryptCtx.pos + |src|);
    }
  }

  // ---------------------------------------------------------------- specification of reads

  /** C++ division of a possibly negative offset: the quotient is rounded toward zero. */
  function TruncDiv(a: int, b: nat): int
    requires b > 0
  {
    if a >= 0 then a / b else -((-a) / b)
  }

  lemma TruncParts(rel: int)
    ensures var q := TruncDiv(rel, BLK_SIZE);
      var r := rel - q * BLK_SIZE;
      if r > 0 then rel > 0 && q >= 0 && q == rel / BLK_SIZE && r == rel % BLK_SIZE
      else rel <= 0 || rel % BLK_SIZE == 0
  {
  }

  /** The counter a read starts from when the get position is `rel` bytes after the start position. */
  function StartCounter(iv: Block, rel: int): Block
  {
    IncCTRCounter(iv, TruncDiv(rel, BLK_SIZE) % TWO_64)
  }

  /** What reads will return, to the end of the stream, when the buffer is re-initialised at `g`. */
  function FreshPending(e: BlockFn, key: seq<byte>, iv: Block, start: nat, data: seq<byte>, g: nat): seq<byte>
    requires g <= |data|
  {
    var rel := g - start;
    if rel > 0 && rel % BLK_SIZE > 0 then
      Crypt(e, key, StartCounter(iv, rel), 0, data[rel / BLK_SIZE * BLK_SIZE..])[rel % BLK_SIZE..]
    else
      Crypt(e, key, StartCounter(iv, rel), 0, data[g..])
  }

  /** The same by the quotient and remainder of C++ division. */
  lemma FreshByBlocks(e: BlockFn, key: seq<byte>, iv: Block, start: nat, data: seq<byte>, g: nat)
    requires g <= |data|
    ensures var q := TruncDiv(g - start, BLK_SIZE);
      var r := g - start - q * BLK_SIZE;
      var counter: Block := IncCTRCounter(iv, q % TWO_64);
      && r < BLK_SIZE && (r > 0 ==> q >= 0 && q * BLK_SIZE + r <= |data|)
      && FreshPending(e, key, iv, start, data, g)
         == if r > 0 then Crypt(e, key, counter, 0, data[q * BLK_SIZE..])[r..] else Crypt(e, key, counter, 0, data[g..])
  {
    hide Crypt, IncCTRCounter;
    TruncParts(g - start);
  }

  /** One-shot CTR encryption of everything from the start position on. */
  function Ciphertext(e: BlockFn, key: seq<byte>, iv: Block, start: nat, data: seq<byte>): (c: seq<byte>)
    requires start <= |data|
    ensures |c| == |data| - start
  {
    Crypt(e, key, iv, 0, data[start..])
  }

  /** The 64-bit block counter does not run over within n bytes. */
  predicate Room(iv: Block, n: nat)
  {
    LowHalf(iv) + n / BLK_SIZE < TWO_64
  }

  lemma StartCounterInRoom(iv: Block, rel: nat, n: nat)
    requires rel <= n && Room(iv, n)
    ensures StartCounter(iv, rel) == CounterBlock(iv, rel / BLK_SIZE)
  {
    assert rel / BLK_SIZE <= n / BLK_SIZE;
    ModOnce(rel / BLK_SIZE, TWO_64);
    IncCTRCounterIsIncrement(iv, rel / BLK_SIZE, true);
  }

  /**
   After a seek to `g`, reads deliver the one-shot ciphertext from `g` on exactly when the
   start position is 0 or `g` lies a whole number of blocks after it.
   */
  lemma SeekDeliversCiphertext(e: BlockFn, key: seq<byte>, iv: Block, start: nat, data: seq<byte>, g: nat)
    requires start <= g <= |data| && Room(iv, |data|)
    ensures FreshPending(e, key, iv, start, data, g) == Ciphertext(e, key, iv, start, data)[g - start..]
       <==> start == 0 || (g - start) % BLK_SIZE == 0
  {
    hide Crypt, IncCTRCounter, CounterBlock, StartCounter, Room;
    var rel := g - start;
    var k := rel / BLK_SIZE;
    StartCounterInRoom(iv, rel, |data|);
    CryptTail(e, key, iv, 0, data[start..], rel);
    assert data[start..][rel..] == data[g..];
    if rel % BLK_SIZE == 0 {
      CryptFromBlock(e, key, iv, k, 0, data[g..]);
    } else if start == 0 {
      var from := k * BLK_SIZE;
      CryptFromBlock(e, key, iv, k, 0, data[from..]);
      CryptTail(e, key, iv, from, data[from..], rel - from);
      assert data[from..][rel - from..] == data[g..];
    }
  }

  /** What a mid-block seek on a buffer with a later start position really delivers: the bytes `start` earlier. */
  lemma MidBlockSeekIsShifted(e: BlockFn, key: seq<byte>, iv: Block, start: nat, data: seq<byte>, g: nat)
    requires start <= g <= |data| && Room(iv, |data|) && (g - start) % BLK_SIZE != 0
    ensures FreshPending(e, key, iv, start, data, g) == Crypt(e, key, iv, 0, data)[g - start..]
  {
    hide Crypt, StartCounter, Room;
    SeekDeliversCiphertext(e, key, iv, 0, data, g - start);
    assert data[0..] == data;
  }

  /** A buffer that starts reading where it was opened needs no counter step, whatever the vector. */
  lemma OpenDeliversCiphertext(e: BlockFn, key: seq<byte>, iv: Block, start: nat, data: seq<byte>)
    requires start <= |data|
    ensures FreshPending(e, key, iv, start, data, start) == Ciphertext(e, key, iv, start, data)
  {
    StartCounterAtStart(iv);
    hide Crypt, StartCounter;
  }

  lemma StartCounterAtStart(iv: Block)
    ensures StartCounter(iv, 0) == iv
  {
    hide IncCTRCounter, CounterBlock, LowHalf, BE;
    assert TruncDiv(0, BLK_SIZE) % TWO_64 == 0;
    BlockSplits(iv);
    IncCTRCounterIsIncrement(iv, 0, true);
    CounterBlockZero(iv);
  }

  /** Going back 16k bytes in the counter and k blocks forward again is where one started. */
  lemma BackAndForth(iv: Block, k: nat)
    requires 0 < k < TWO_64 && k <= LowHalf(iv)
    ensures CounterBlock(IncCTRCounter(iv, TWO_64 - k), k) == iv
  {
    hide BE, ToBE, CounterBlock, IncCTRCounter, AddToWord;
    var back: Block := IncCTRCounter(iv, TWO_64 - k);
    BlockSplits(iv);
    BlockSplits(back);
    AddToWordValue(iv[8..], TWO_64 - k);
    ModOnce(LowHalf(iv) + TWO_64 - k, TWO_64);
    assert LowHalf(back) == LowHalf(iv) - k;
    IncCTRCounterIsIncrement(back, k, true);
    IncCTRCounterAdds(iv, TWO_64 - k, k, true);
    DivUnique(TWO_64, TWO_64, 1, 0);
    IncCTRCounterIsIncrement(iv, 0, true);
    CounterBlockZero(iv);
  }

  /**
   A seek to before the start position counts back whole blocks, rounded toward the start: from
   the start position on it delivers the input encrypted as many bytes into the key stream as the
   distance exceeds whole blocks, so the ciphertext itself when it is a number of blocks.
   */
  lemma SeekBeforeStart(e: BlockFn, key: seq<byte>, iv: Block, start: nat, data: seq<byte>, g: nat)
    requires g < start <= |data| && (start - g) / BLK_SIZE <= LowHalf(iv)
    ensures var back := start - g;
      |FreshPending(e, key, iv, start, data, g)| == |data| - g &&
      FreshPending(e, key, iv, start, data, g)[back..] == Crypt(e, key, iv, back % BLK_SIZE, data[start..])
  {
    hide Crypt, CounterBlock, IncCTRCounter, LowHalf;
    var back := start - g;
    var k, j := back / BLK_SIZE, back % BLK_SIZE;
    var counter := StartCounter(iv, -back);
    assert TruncDiv(-back, BLK_SIZE) == -k;
    assert FreshPending(e, key, iv, start, data, g) == Crypt(e, key, counter, 0, data[g..]);
    CryptTail(e, key, counter, 0, data[g..], back);
    assert data[g..][back..] == data[start..];
    if k == 0 {
      StartCounterAtStart(iv);
    } else {
      LowHalfBound(iv);
      NegativeMod(k);
      BackAndForth(iv, k);
      CryptFromBlock(e, key, counter, k, j, data[start..]);
    }
  }

  lemma LowHalfBound(iv: Block)
    ensures LowHalf(iv) < TWO_64
  {
    BlockSplits(iv);
  }

  lemma NegativeMod(k: nat)
    requires 0 < k < TWO_64
    ensures -(k as int) % TWO_64 == TWO_64 - k
  {
  }

  lemma CryptInjective(e: BlockFn, key: seq<byte>, iv: Block, pos: nat, a: seq<byte>, b: seq<byte>)
    ensures Crypt(e, key, iv, pos, a) == Crypt(e, key, iv, pos, b) <==> a == b
  {
    CryptTwice(e, key, iv, pos, a);
    CryptTwice(e, key, iv, pos, b);
  }

  lemma CryptSlice(e: BlockFn, key: seq<byte>, iv: Block, pos: nat, data: seq<byte>, lo: nat, n: nat)
    requires lo + n <= |data|
    ensures Crypt(e, key, iv, pos, data)[lo..lo + n] == Crypt(e, key, iv, pos + lo, data[lo..lo + n])
  {
    hide Crypt;
    CryptTail(e, key, iv, pos, data, lo);
    var t := data[lo..];
    CryptAppend(e, key, iv, pos + lo, t[..n], t[n..]);
    assert t == t[..n] + t[n..] && t[..n] == data[lo..lo + n];
    PrefixThenSlice(Crypt(e, key, iv, pos, data), lo, n);
  }

  /**
   A read of n bytes after a seek to `g` returns the ciphertext slice there exactly when the
   target lies whole blocks after the start, or the bytes `start` earlier happen to be the same.
   */
  lemma SeekReadsSlice(e: BlockFn, key: seq<byte>, iv: Block, start: nat, data: seq<byte>, g: nat, n: nat)
    requires start <= g && g + n <= |data| && Room(iv, |data|)
    ensures |FreshPending(e, key, iv, start, data, g)| >= n
    ensures var at := g - start;
      FreshPending(e, key, iv, start, data, g)[..n] == Ciphertext(e, key, iv, start, data)[at..at + n] <==>
        at % BLK_SIZE == 0 || data[at..at + n] == data[g..g + n]
  {
    hide Crypt, FreshPending, Room;
    var at := g - start;
    var c, f := Ciphertext(e, key, iv, start, data), FreshPending(e, key, iv, start, data, g);
    if at % BLK_SIZE == 0 {
      SeekDeliversCiphertext(e, key, iv, start, data, g);
      PrefixThenSlice(c, at, n);
    } else {
      MidBlockSeekIsShifted(e, key, iv, start, data, g);
      ShiftedSlice(e, key, iv, start, data, g, n);
    }
  }

  /** Slices of the two key-stream alignments agree exactly when the data under them does. */
  lemma ShiftedSlice(e: BlockFn, key: seq<byte>, iv: Block, start: nat, data: seq<byte>, g: nat, n: nat)
    requires start <= g && g + n <= |data|
    ensures var at := g - start;
      Crypt(e, key, iv, 0, data)[at..][..n] == Crypt(e, key, iv, 0, data[start..])[at..at + n] <==>
        data[at..at + n] == data[g..g + n]
  {
    hide Crypt;
    var at := g - start;
    PrefixThenSlice(Crypt(e, key, iv, 0, data), at, n);
    CryptSlice(e, key, iv, 0, data, at, n);
    CryptSlice(e, key, iv, 0, data[start..], at, n);
    assert data[start..][at..at + n] == data[g..g + n];
    CryptInjective(e, key, iv, at, data[at..at + n], data[g..g + n]);
  }

  // ---------------------------------------------------------------- specification of writes

  /** A sink with its put position, the bytes still to be skipped and the key-stream position. */
  datatype Sink = Sink(data: seq<byte>, put: nat, skip: nat, pos: nat)

  /** Decrypts `b`, drops what is still to be skipped and writes the rest. */
  function Deliver(e: BlockFn, key: seq<byte>, iv: Block, v: Sink, b: seq<byte>): (w: Sink)
    requires v.put <= |v.data|
    ensures w.put <= |w.data|
  {
    var kept := Crypt(e, key, iv, v.pos, b)[Min(v.skip, |b|)..];
    Sink(Overwrite(v.data, v.put, kept), v.put + |kept|, v.skip - Min(v.skip, |b|), v.pos + |b|)
  }

  lemma DeliverNothing(e: BlockFn, key: seq<byte>, iv: Block, v: Sink)
    requires v.put <= |v.data|
    ensures Deliver(e, key, iv, v, []) == v
  {
    assert Overwrite(v.data, v.put, []) == v.data;
  }

  lemma DeliverAppend(e: BlockFn, key: seq<byte>, iv: Block, v: Sink, a: seq<byte>, b: seq<byte>)
    requires v.put <= |v.data|
    ensures Deliver(e, key, iv, Deliver(e, key, iv, v, a), b) == Deliver(e, key, iv, v, a + b)
  {
    hide Crypt;
    CryptAppend(e, key, iv, v.pos, a, b);
    var ca, cb := Crypt(e, key, iv, v.pos, a), Crypt(e, key, iv, v.pos + |a|, b);
    var sa := Min(v.skip, |a|);
    var sb := Min(v.skip - sa, |b|);
    assert (ca + cb)[Min(v.skip, |a + b|)..] == ca[sa..] + cb[sb..];
    OverwriteAppend(v.data, v.put, ca[sa..], cb[sb..]);
  }

  // ---------------------------------------------------------------- the stream buffer

  class CryptoStreamBuf {
    const sbuf: StreamBuf
    const cipher: SymmetricCipher
    const key: seq<byte>
    const iv: Block
    const startPosForIV: nat
    const encBuffer: array<byte>
    const decBuffer: array<byte>
    var encBufferCnt: nat
    var encBufferOff: nat
    var decBufferCnt: nat
    var decBufferOff: nat
    var initEncrypt: bool
    var initDecrypt: bool
    var skipCnt: nat

    ghost predicate Valid()
      reads this, sbuf, cipher
    {
      && sbuf.Valid()
      && startPosForIV <= |sbuf.data|
      && encBuffer != decBuffer
      && encBuffer.Length == decBuffer.Length == 2 * BLK_SIZE
      && encBufferOff + encBufferCnt <= BLK_SIZE
      && decBufferOff == decBufferCnt < BLK_SIZE
      && (initEncrypt ==> cipher.encryptCtx.key == key)
      && (initDecrypt ==> cipher.decryptCtx.key == key && cipher.decryptCtx.iv == iv)
    }

    constructor (sbuf: StreamBuf, cipher: SymmetricCipher, key: seq<byte>, iv: Block, skipCnt: nat := 0)
      requires sbuf.Valid()
      ensures Valid() && fresh(encBuffer) && fresh(decBuffer)
      ensures this.sbuf == sbuf && this.cipher == cipher && this.key == key && this.iv == iv
      ensures startPosForIV == sbuf.getPos && this.skipCnt == skipCnt
      ensures !initEncrypt && !initDecrypt && decBufferCnt == 0
    {
      this.sbuf, this.cipher, this.key, this.iv := sbuf, cipher, key, iv;
      this.startPosForIV := sbuf.getPos;
      this.encBuffer := new byte[2 * BLK_SIZE](_ => 0);
      this.decBuffer := new byte[2 * BLK_SIZE](_ => 0);
      encBufferCnt, encBufferOff, decBufferCnt, decBufferOff := 0, 0, 0, 0;
      initEncrypt, initDecrypt := false, false;
      this.skipCnt := skipCnt;
    }

    // -------------------------------------------------- reading

    /** Everything reads will still return, up to the end of the wrapped stream. */
    ghost function Pending(): (p: seq<byte>)
      requires Valid()
      reads this, sbuf, cipher, encBuffer
    {
      if initEncrypt then
        Held() + Ahead()
      else
        FreshPending(cipher.block, key, iv, startPosForIV, sbuf.data, sbuf.getPos)
    }

    /** The bytes waiting in the encryption buffer. */
    ghost function Held(): (h: seq<byte>)
      requires Valid()
      reads this, sbuf, cipher, encBuffer
      ensures |h| == encBufferCnt
    {
      encBuffer[encBufferOff..encBufferOff + encBufferCnt]
    }

    /** The encryption of what the wrapped stream has not yet handed over. */
    ghost function Ahead(): seq<byte>
      requires Valid()
      reads this, sbuf, cipher
    {
      Crypt(cipher.block, cipher.encryptCtx.key, cipher.encryptCtx.iv, cipher.encryptCtx.pos, sbuf.data[sbuf.getPos..])
    }

    ghost function Whole(): seq<byte>
      requires Valid()
      reads this, sbuf, cipher
    {
      Ciphertext(cipher.block, key, iv, startPosForIV, sbuf.data)
    }

    /** One-shot encryption of the whole wrapped stream from its very beginning. */
    ghost function Shifted(): (c: seq<byte>)
      requires Valid()
      reads this, sbuf, cipher
      ensures |c| == |sbuf.data|
    {
      Crypt(cipher.block, key, iv, 0, sbuf.data)
    }

    /** The stream position the next byte read belongs to. */
    ghost function LogicalPos(): int
      reads this, sbuf
    {
      if initEncrypt then sbuf.getPos - encBufferCnt else sbuf.getPos
    }

    /** Reads are in step: what is pending is the one-shot ciphertext from the logical position on. */
    ghost predicate InStep()
      requires Valid()
      reads this, sbuf, cipher, encBuffer
    {
      startPosForIV <= LogicalPos() <= |sbuf.data| && Pending() == Whole()[LogicalPos() - startPosForIV..]
    }

    /** Puts an encrypted block into the buffer, its first `skip` bytes as already handed out. */
    method KeepBlock(src: seq<byte>, skip: nat)
      requires Valid() && skip <= |src| <= BLK_SIZE
      modifies encBuffer, `encBufferCnt, `encBufferOff
      ensures Valid() && Held() == src[skip..] && Ahead() == old(Ahead())
    {
      hide Crypt;
      forall i | 0 <= i < |src| {
        encBuffer[i] := src[i];
      }
      encBufferCnt, encBufferOff := |src| - skip, skip;
    }

    /** The lazy initialisation at the head of xsgetn. */
    method InitForRead()
      requires Valid() && !initEncrypt
      modifies `encBufferCnt, `encBufferOff, `initEncrypt, sbuf`getPos, sbuf`putPos, cipher`encryptCtx, encBuffer
      ensures Valid() && initEncrypt && Pending() == old(Pending()) && sbuf.putPos == old(sbuf.putPos)
    {
      hide Crypt, IncCTRCounter, TruncDiv, FreshPending;
      FreshByBlocks(cipher.block, key, iv, startPosForIV, sbuf.data, sbuf.getPos);
      var currPos := sbuf.getPos - startPosForIV;
      var blkOff := TruncDiv(currPos, BLK_SIZE);
      var blkIdx := currPos - blkOff * BLK_SIZE;
      cipher.EncryptInit(key, IncCTRCounter(iv, blkOff % TWO_64));
      encBufferCnt, encBufferOff := 0, 0;
      if blkIdx > 0 {
        RestartBlock(blkOff * BLK_SIZE, blkIdx);
      }
      initEncrypt := true;
    }

    /** The mid-block branch: fetches the block at `from` again and keeps what follows its first `blkIdx` bytes. */
    method RestartBlock(from: nat, blkIdx: nat)
      requires Valid() && !initEncrypt && from + blkIdx <= |sbuf.data| && blkIdx < BLK_SIZE
      requires cipher.encryptCtx.key == key && cipher.encryptCtx.pos == 0
      modifies `encBufferCnt, `encBufferOff, sbuf`getPos, sbuf`putPos, cipher`encryptCtx, encBuffer
      ensures Valid() && cipher.encryptCtx.key == key && sbuf.putPos == old(sbuf.putPos)
      ensures Held() + Ahead()
           == Crypt(cipher.block, key, old(cipher.encryptCtx.iv), 0, sbuf.data[from..])[blkIdx..]
    {
      hide Crypt;
      var pos := sbuf.PubSeekpos(from, true, false);
      var block := sbuf.Sgetn(BLK_SIZE);
      assert sbuf.data[from..] == block + sbuf.data[sbuf.getPos..];
      CryptAppend(cipher.block, key, cipher.encryptCtx.iv, 0, block, sbuf.data[sbuf.getPos..]);
      var ret := cipher.Encrypt(block);
      ghost var ahead := Ahead();
      KeepBlock(ret, blkIdx);
      assert (ret + ahead)[blkIdx..] == ret[blkIdx..] + ahead;
    }

    method ReadFromEncryptedBuffer(count: nat) returns (r: seq<byte>)
      requires Valid() && initEncrypt
      modifies `encBufferCnt, `encBufferOff
      ensures Valid() && |r| == Min(count, old(encBufferCnt))
      ensures encBufferCnt == old(encBufferCnt) - |r|
      ensures old(Pending()) == r + Pending()
    {
      hide Ahead, FreshPending, Held;
      r := TakeHeld(count);
      JoinThree(r, Held(), Ahead());
    }

    /** Takes the next bytes out of the buffer. */
    method TakeHeld(count: nat) returns (r: seq<byte>)
      requires Valid()
      modifies `encBufferCnt, `encBufferOff
      ensures Valid() && |r| == Min(count, old(encBufferCnt))
      ensures encBufferCnt == old(encBufferCnt) - |r|
      ensures old(Held()) == r + Held() && Ahead() == old(Ahead())
    {
      hide Crypt;
      r := [];
      if count > 0 && encBufferCnt > 0 {
        var cnt := Min(count, encBufferCnt);
        r := encBuffer[encBufferOff..encBufferOff + cnt];
        encBufferCnt, encBufferOff := encBufferCnt - cnt, encBufferOff + cnt;
      }
    }

    /** Fetches and encrypts the next block of the wrapped stream. */
    method EncryptNext() returns (ret: seq<byte>)
      requires Valid() && initEncrypt
      modifies sbuf`getPos, cipher`encryptCtx
      ensures Valid() && |ret| <= BLK_SIZE && old(Ahead()) == ret + Ahead()
      ensures ret == [] ==> Ahead() == []
    {
      hide Crypt, FreshPending;
      ghost var ctx, data := cipher.encryptCtx, sbuf.data[sbuf.getPos..];
      var block := sbuf.Sgetn(BLK_SIZE);
      ret := [];
      if |block| > 0 {
        ghost var rest := sbuf.data[sbuf.getPos..];
        assert data == block + rest;
        CryptAppend(cipher.block, ctx.key, ctx.iv, ctx.pos, block, rest);
        ret := cipher.Encrypt(block);
      }
    }

    /** One turn of the block loop of xsgetn; nothing is buffered when it starts. */
    method ReadBlock(count: nat) returns (r: seq<byte>, more: bool)
      requires Valid() && initEncrypt && encBufferCnt == 0 && count > 0
      modifies `encBufferCnt, `encBufferOff, sbuf`getPos, cipher`encryptCtx, encBuffer
      ensures Valid() && initEncrypt && |r| <= count
      ensures old(Pending()) == r + Pending()
      ensures more ==> |r| > 0 && encBufferCnt == 0
      ensures !more ==> r == [] && (encBufferCnt > count || Pending() == [])
    {
      hide Ahead, FreshPending, Held;
      r, more := [], false;
      assert Pending() == Ahead();
      var ret := EncryptNext();
      if |ret| > 0 {
        if count < |ret| {
          KeepBlock(ret, 0);
        } else {
          r, more := ret, true;
        }
      }
    }

    /** Reads up to `count` encrypted bytes: the next ones pending, fewer only at the end of the stream. */
    method Xsgetn(count: nat) returns (r: seq<byte>)
      requires Valid()
      modifies `encBufferCnt, `encBufferOff, `initEncrypt, sbuf`getPos, sbuf`putPos, cipher`encryptCtx, encBuffer
      ensures Valid() && initEncrypt && sbuf.putPos == old(sbuf.putPos)
      ensures |r| == Min(count, |old(Pending())|)
      ensures old(Pending()) == r + Pending()
      ensures old(InStep()) ==> InStep() && LogicalPos() == old(LogicalPos()) + |r|
    {
      hide Pending, Ciphertext;
      ghost var pending, whole, at := Pending(), Whole(), LogicalPos() - startPosForIV;
      ghost var inStep := InStep();
      if !initEncrypt {
        InitForRead();
      }
      var first := ReadFromEncryptedBuffer(count);
      var rest := [];
      if |first| < count {
        rest := ReadBlocks(count - |first|);
      }
      r := first + rest;
      assert pending == r + Pending();
      PendingLength();
      if inStep {
        DropFront(whole, at, r, Pending());
      }
    }

    static lemma DropFront(whole: seq<byte>, at: nat, r: seq<byte>, rest: seq<byte>)
      requires at <= |whole| && whole[at..] == r + rest
      ensures rest == whole[at + |r|..]
    {
      assert rest == (r + rest)[|r|..];
    }

    /** The block loop of xsgetn and the second look at the buffer. */
    method ReadBlocks(count: nat) returns (r: seq<byte>)
      requires Valid() && initEncrypt && encBufferCnt == 0
      modifies `encBufferCnt, `encBufferOff, sbuf`getPos, cipher`encryptCtx, encBuffer
      ensures Valid() && initEncrypt
      ensures |r| == Min(count, |old(Pending())|) && old(Pending()) == r + Pending()
    {
      hide Pending;
      ghost var all := Pending();
      r := [];
      var more := true;
      while more && |r| < count
        invariant Valid() && initEncrypt && |r| <= count && all == r + Pending()
        invariant more ==> encBufferCnt == 0
        invariant !more ==> encBufferCnt > count - |r| || Pending() == []
        decreases count - |r|, more
      {
        ghost var before, was := r, Pending();
        var chunk;
        chunk, more := ReadBlock(count - |r|);
        r := r + chunk;
        assert before + was == before + (chunk + Pending()) == r + Pending();
      }
      ghost var before, was := r, Pending();
      var last := ReadFromEncryptedBuffer(count - |r|);
      r := r + last;
      assert before + was == before + (last + Pending()) == r + Pending();
    }

    lemma PendingLength()
      requires Valid() && initEncrypt
      ensures |Pending()| == encBufferCnt + |sbuf.data| - sbuf.getPos
    {
    }

    /** seekoff: drops the initialisation of the selected directions and moves the wrapped stream. */
    method Seekoff(off: int, way: SeekDir, input: bool, output: bool) returns (r: int)
      requires Valid()
      modifies `initEncrypt, `initDecrypt, sbuf`getPos, sbuf`putPos
      ensures Valid()
      ensures initEncrypt == (old(initEncrypt) && !input) && initDecrypt == (old(initDecrypt) && !output)
      ensures var t := match way
          case Beg => off
          case End => |sbuf.data| + off
          case Cur => if input && output then -1 else off + old(if input then sbuf.getPos else sbuf.putPos);
        && r == (if (input || output) && 0 <= t <= |sbuf.data| then t else -1)
        && sbuf.getPos == (if input && r != -1 then t else old(sbuf.getPos))
        && sbuf.putPos == (if output && r != -1 then t else old(sbuf.putPos))
    {
      if input { initEncrypt := false; }
      if output { initDecrypt := false; }
      r := sbuf.PubSeekoff(off, way, input, output);
    }

    method Seekpos(pos: int, input: bool, output: bool) returns (r: int)
      requires Valid()
      modifies `initEncrypt, `initDecrypt, sbuf`getPos, sbuf`putPos
      ensures Valid()
      ensures initEncrypt == (old(initEncrypt) && !input) && initDecrypt == (old(initDecrypt) && !output)
      ensures r == if (input || output) && 0 <= pos <= |sbuf.data| then pos else -1
      ensures sbuf.getPos == if input && r != -1 then pos else old(sbuf.getPos)
      ensures sbuf.putPos == if output && r != -1 then pos else old(sbuf.putPos)
    {
      if input { initEncrypt := false; }
      if output { initDecrypt := false; }
      r := sbuf.PubSeekpos(pos, input, output);
    }

    // -------------------------------------------------- writing

    /** What the sink would be if the buffer were destroyed now. */
    ghost function Flushed(): (v: Sink)
      requires Valid()
      reads this, sbuf, cipher, decBuffer
      ensures v.put <= |v.data|
    {
      Deliver(cipher.block, cipher.decryptCtx.key, cipher.decryptCtx.iv,
              Sink(sbuf.data, sbuf.putPos, skipCnt, cipher.decryptCtx.pos), decBuffer[..decBufferCnt])
    }

    /** The sink the next write adds to: a write after an out-seek forgets the bytes held back. */
    ghost function WriteBase(): (v: Sink)
      requires Valid()
      reads this, sbuf, cipher, decBuffer
      ensures v.put <= |v.data|
    {
      if initDecrypt then Flushed() else Sink(sbuf.data, sbuf.putPos, skipCnt, 0)
    }

    /** Drops what is still to be skipped, then writes; the sink accepts everything. */
    method XsputnWithSkip(b: seq<byte>)
      requires sbuf.Valid()
      modifies `skipCnt, sbuf`data, sbuf`putPos
      ensures sbuf.Valid()
      ensures var n := Min(old(skipCnt), |b|);
        && skipCnt == old(skipCnt) - n
        && sbuf.data == Overwrite(old(sbuf.data), old(sbuf.putPos), b[n..])
        && sbuf.putPos == old(sbuf.putPos) + |b| - n
    {
      var n := 0;
      if skipCnt > 0 {
        n := Min(skipCnt, |b|);
        skipCnt := skipCnt - n;
      }
      if |b| - n > 0 {
        sbuf.Sputn(b[n..]);
      } else {
        assert Overwrite(sbuf.data, sbuf.putPos, []) == sbuf.data;
      }
    }

    /** Decrypts one run of bytes straight into the sink; nothing is held back at the time. */
    method DecryptOut(b: seq<byte>)
      requires sbuf.Valid()
      modifies `skipCnt, sbuf`data, sbuf`putPos, cipher`decryptCtx
      ensures sbuf.Valid() && |sbuf.data| >= old(|sbuf.data|)
      ensures cipher.decryptCtx.key == old(cipher.decryptCtx.key) && cipher.decryptCtx.iv == old(cipher.decryptCtx.iv)
      ensures Sink(sbuf.data, sbuf.putPos, skipCnt, cipher.decryptCtx.pos)
           == Deliver(cipher.block, cipher.decryptCtx.key, cipher.decryptCtx.iv,
                      old(Sink(sbuf.data, sbuf.putPos, skipCnt, cipher.decryptCtx.pos)), b)
    {
      var block := cipher.Decrypt(b);
      XsputnWithSkip(block);
    }

    method AppendDecBuffer(b: seq<byte>)
      requires decBufferOff == decBufferCnt && decBufferCnt + |b| <= decBuffer.Length
      modifies `decBufferCnt, `decBufferOff, decBuffer
      ensures decBufferCnt == decBufferOff == old(decBufferCnt) + |b|
      ensures decBuffer[..decBufferCnt] == old(decBuffer[..decBufferCnt]) + b
    {
      forall i | 0 <= i < |b| {
        decBuffer[decBufferOff + i] := b[i];
      }
      decBufferOff := decBufferOff + |b|;
      decBufferCnt := decBufferCnt + |b|;
    }

    /** Accepts encrypted bytes; flushing afterwards delivers the decryption of one contiguous input. */
    method Xsputn(b: seq<byte>) returns (n: nat)
      requires Valid()
      modifies `decBufferCnt, `decBufferOff, `initDecrypt, `skipCnt,
               sbuf`data, sbuf`putPos, cipher`decryptCtx, decBuffer
      ensures Valid() && initDecrypt && n == |b|
      ensures Flushed() == Deliver(cipher.block, key, iv, old(WriteBase()), b)
    {
      hide Deliver, Overwrite;
      if !initDecrypt {
        cipher.DecryptInit(key, iv);
        decBufferCnt, decBufferOff := 0, 0;
        initDecrypt := true;
        DeliverNothing(cipher.block, key, iv, Sink(sbuf.data, sbuf.putPos, skipCnt, 0));
        assert decBuffer[..0] == [];
      }
      ghost var base := Flushed();
      ghost var now := Sink(sbuf.data, sbuf.putPos, skipCnt, cipher.decryptCtx.pos);
      var at := 0;
      if decBufferCnt > 0 {
        ghost var held := decBuffer[..decBufferCnt];
        at := Min(|b|, BLK_SIZE - decBufferCnt);
        AppendDecBuffer(b[..at]);
        DeliverAppend(cipher.block, key, iv, now, held, b[..at]);
      } else {
        DeliverNothing(cipher.block, key, iv, base);
        assert decBuffer[..decBufferCnt] + b[..0] == decBuffer[..decBufferCnt];
      }
      assert Deliver(cipher.block, key, iv, now, decBuffer[..decBufferCnt])
          == Deliver(cipher.block, key, iv, base, b[..at]);
      if decBufferCnt == BLK_SIZE {
        DecryptOut(decBuffer[..BLK_SIZE]);
        decBufferCnt, decBufferOff := 0, 0;
        DeliverNothing(cipher.block, key, iv, Sink(sbuf.data, sbuf.putPos, skipCnt, cipher.decryptCtx.pos));
        assert decBuffer[..0] == [];
      }
      assert Flushed() == Deliver(cipher.block, key, iv, base, b[..at]);
      assert at < |b| ==> decBufferCnt == 0;
      XsputnBlocks(b, at, base);
      n := |b|;
    }

    /** The block loop and the tail of xsputn: everything from `from` on. */
    method XsputnBlocks(b: seq<byte>, from: nat, ghost base: Sink)
      requires Valid() && initDecrypt && from <= |b| && base.put <= |base.data|
      requires from < |b| ==> decBufferCnt == 0
      requires Flushed() == Deliver(cipher.block, key, iv, base, b[..from])
      modifies `decBufferCnt, `decBufferOff, `skipCnt, sbuf`data, sbuf`putPos, cipher`decryptCtx, decBuffer
      ensures Valid() && Flushed() == Deliver(cipher.block, key, iv, base, b)
    {
      hide Deliver, Overwrite;
      var at := from;
      var blkOff := (|b| - from) / BLK_SIZE;
      var blkIdx := (|b| - from) % BLK_SIZE;
      for i := 0 to blkOff
        invariant at == from + i * BLK_SIZE
        invariant Valid() && initDecrypt && (from < |b| ==> decBufferCnt == 0)
        invariant Flushed() == Deliver(cipher.block, key, iv, base, b[..at])
      {
        ghost var now := Sink(sbuf.data, sbuf.putPos, skipCnt, cipher.decryptCtx.pos);
        DeliverNothing(cipher.block, key, iv, now);
        assert decBuffer[..0] == [] && Flushed() == now;
        DecryptOut(b[at..at + BLK_SIZE]);
        DeliverNothing(cipher.block, key, iv, Sink(sbuf.data, sbuf.putPos, skipCnt, cipher.decryptCtx.pos));
        DeliverAppend(cipher.block, key, iv, base, b[..at], b[at..at + BLK_SIZE]);
        assert b[..at] + b[at..at + BLK_SIZE] == b[..at + BLK_SIZE];
        at := at + BLK_SIZE;
      }
      assert b[..at] + b[at..] == b;
      if blkIdx > 0 {
        ghost var now := Sink(sbuf.data, sbuf.putPos, skipCnt, cipher.decryptCtx.pos);
        DeliverNothing(cipher.block, key, iv, now);
        assert decBuffer[..0] == [] && Flushed() == now;
        AppendDecBuffer(b[at..]);
        assert decBuffer[..decBufferCnt] == b[at..];
        DeliverAppend(cipher.block, key, iv, base, b[..at], b[at..]);
      } else {
        assert b[..at] == b;
      }
    }

    /** The destructor: decrypts and writes the bytes held back. */
    method Destroy()
      requires Valid()
      modifies `decBufferCnt, `skipCnt, sbuf`data, sbuf`putPos, cipher`decryptCtx
      ensures sbuf.Valid() && decBufferCnt == 0
      ensures Sink(sbuf.data, sbuf.putPos, skipCnt, cipher.decryptCtx.pos) == old(Flushed())
    {
      if decBufferCnt > 0 {
        DecryptOut(decBuffer[..decBufferCnt]);
        decBufferCnt := 0;
      } else {
        assert decBuffer[..0] == [];
        DeliverNothing(cipher.block, cipher.decryptCtx.key, cipher.decryptCtx.iv,
                       Sink(sbuf.data, sbuf.putPos, skipCnt, cipher.decryptCtx.pos));
      }
    }
  }
}
