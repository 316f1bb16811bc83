/**
 Whole runs of the encryption stream buffer: any interleaving of reads and seeks, any
 chunking of writes, and a read undone by a write.
 */
module StreamRuns {
  import opened Bytes
  import opened Ctr
  import opened CryptoStreamBuf

  /** `all` cut into pieces of the given sizes; the last piece takes what is left. */
  function Cut(all: seq<byte>, sizes: seq<nat>): seq<seq<byte>>
  {
    if sizes == [] then [all]
    else
      var n := Min(sizes[0], |all|);
      [all[..n]] + Cut(all[n..], sizes[1..])
  }

  lemma {:induction false} ConcatCut(all: seq<byte>, sizes: seq<nat>)
    ensures Concat(Cut(all, sizes)) == all
  {
    if sizes == [] {
      assert Cut(all, sizes)[1..] == [];
    } else {
      var n := Min(sizes[0], |all|);
      ConcatCut(all[n..], sizes[1..]);
      assert Cut(all, sizes)[1..] == Cut(all[n..], sizes[1..]);
    }
  }

  // ---------------------------------------------------------------- reads and in-seeks

  datatype ReadOp = Read(count: nat) | SeekTo(target: nat)

  predicate InStream(start: nat, size: nat, ops: seq<ReadOp>)
  {
    forall op <- ops :: op.SeekTo? ==> start <= op.target <= size
  }

  /** Seek targets the stream buffer gets right: a block boundary when it did not start at 0. */
  predicate GoodTarget(start: nat, target: int)
  {
    start == 0 || (target - start) % BLK_SIZE == 0
  }

  predicate GoodSeeks(start: nat, ops: seq<ReadOp>)
  {
    forall op <- ops :: op.SeekTo? ==> GoodTarget(start, op.target)
  }

  /** What a seek leaves to be read: the tail of the ciphertext, or bytes `start` too early. */
  function AfterSeek(c: seq<byte>, shifted: seq<byte>, start: nat, t: nat): seq<byte>
    requires |shifted| == start + |c| && start <= t <= |shifted|
  {
    if GoodTarget(start, t) then c[t - start..] else shifted[t - start..]
  }

  /** What any run of reads and seeks returns, from the bytes pending at its beginning. */
  function SeekReads(c: seq<byte>, shifted: seq<byte>, pending: seq<byte>, start: nat, ops: seq<ReadOp>): seq<seq<byte>>
    requires |shifted| == start + |c| && InStream(start, |shifted|, ops)
    decreases |ops|
  {
    if ops == [] then []
    else
      assert ops[0] in ops;
      match ops[0]
      case SeekTo(t) => SeekReads(c, shifted, AfterSeek(c, shifted, start, t), start, ops[1..])
      case Read(n) =>
        var k := Min(n, |pending|);
        [pending[..k]] + SeekReads(c, shifted, pending[k..], start, ops[1..])
  }

  /** What a plain in-memory stream over `c` returns: every read the slice at the logical position. */
  function PlainReads(c: seq<byte>, at: nat, start: nat, ops: seq<ReadOp>): seq<seq<byte>>
    requires at <= |c| && InStream(start, start + |c|, ops)
    decreases |ops|
  {
    if ops == [] then []
    else
      assert ops[0] in ops;
      match ops[0]
      case SeekTo(t) => PlainReads(c, t - start, start, ops[1..])
      case Read(n) =>
        var k := Min(n, |c| - at);
        [c[at..at + k]] + PlainReads(c, at + k, start, ops[1..])
  }

  lemma RestIsGood(start: nat, size: nat, ops: seq<ReadOp>)
    requires ops != [] && InStream(start, size, ops)
    ensures InStream(start, size, ops[1..]) && (GoodSeeks(start, ops) ==> GoodSeeks(start, ops[1..]))
    ensures ops[0].SeekTo? ==>
      start <= ops[0].target <= size && (GoodSeeks(start, ops) ==> GoodTarget(start, ops[0].target))
  {
    assert ops[0] in ops && forall op <- ops[1..] :: op in ops;
  }

  lemma ReadStep(c: seq<byte>, shifted: seq<byte>, at: nat, start: nat, n: nat, ops: seq<ReadOp>)
    requires |shifted| == start + |c| && InStream(start, |shifted|, ops) && at <= |c|
    requires ops != [] && ops[0] == Read(n) && InStream(start, |shifted|, ops[1..])
    ensures var k := Min(n, |c| - at);
      && SeekReads(c, shifted, c[at..], start, ops)
         == [c[at..at + k]] + SeekReads(c, shifted, c[at + k..], start, ops[1..])
      && PlainReads(c, at, start, ops) == [c[at..at + k]] + PlainReads(c, at + k, start, ops[1..])
  {
    hide InStream, AfterSeek;
    var k := Min(n, |c| - at);
    TailOfTail(c, at, k);
    assert SeekReads(c, shifted, c[at..], start, ops)
        == [c[at..][..k]] + SeekReads(c, shifted, c[at..][k..], start, ops[1..]);
  }

  lemma SeekStep(c: seq<byte>, shifted: seq<byte>, at: nat, start: nat, t: nat, ops: seq<ReadOp>)
    requires |shifted| == start + |c| && InStream(start, |shifted|, ops) && at <= |c|
    requires ops != [] && ops[0] == SeekTo(t) && InStream(start, |shifted|, ops[1..])
    requires start <= t <= |shifted| && GoodTarget(start, t)
    ensures SeekReads(c, shifted, c[at..], start, ops) == SeekReads(c, shifted, c[t - start..], start, ops[1..])
    ensures PlainReads(c, at, start, ops) == PlainReads(c, t - start, start, ops[1..])
  {
  }

  lemma NoReads(c: seq<byte>, shifted: seq<byte>, at: nat, start: nat)
    requires |shifted| == start + |c| && at <= |c|
    ensures SeekReads(c, shifted, c[at..], start, []) == PlainReads(c, at, start, [])
  {
  }

  /** With good seeks only, a run that is in step with the ciphertext is a run on a plain stream over it. */
  lemma {:induction false} GoodSeeksArePlain(c: seq<byte>, shifted: seq<byte>, at: nat, start: nat, ops: seq<ReadOp>)
    requires |shifted| == start + |c| && InStream(start, |shifted|, ops) && GoodSeeks(start, ops) && at <= |c|
    ensures SeekReads(c, shifted, c[at..], start, ops) == PlainReads(c, at, start, ops)
    decreases |ops|
  {
    hide SeekReads, PlainReads, GoodTarget, InStream, GoodSeeks;
    if ops == [] {
      NoReads(c, shifted, at, start);
      return;
    }
    var rest := ops[1..];
    RestIsGood(start, |shifted|, ops);
    match ops[0]
    case SeekTo(t) =>
      SeekStep(c, shifted, at, start, t, ops);
      GoodSeeksArePlain(c, shifted, t - start, start, rest);
    case Read(n) =>
      ReadStep(c, shifted, at, start, n, ops);
      GoodSeeksArePlain(c, shifted, at + Min(n, |c| - at), start, rest);
  }

  function Reads(counts: seq<nat>): (ops: seq<ReadOp>)
    ensures |ops| == |counts|
    ensures forall i | 0 <= i < |ops| :: ops[i] == Read(counts[i])
  {
    seq(|counts|, i requires 0 <= i < |counts| => Read(counts[i]))
  }

  function Sum(counts: seq<nat>): nat
  {
    if counts == [] then 0 else counts[0] + Sum(counts[1..])
  }

  /** Reads without seeks return consecutive slices, whatever their sizes. */
  lemma {:induction false} PlainReadsAreConsecutive(c: seq<byte>, at: nat, start: nat, counts: seq<nat>)
    requires at <= |c|
    ensures Concat(PlainReads(c, at, start, Reads(counts))) == c[at..Min(at + Sum(counts), |c|)]
    decreases |counts|
  {
    hide Reads, PlainReads, Concat, InStream;
    if counts == [] {
      NoReadsAtAll(c, at, start);
    } else {
      var k := Min(counts[0], |c| - at);
      assert Reads(counts)[1..] == Reads(counts[1..]);
      ReadsAreInStream(start, start + |c|, Reads(counts));
      PlainReadsAreConsecutive(c, at + k, start, counts[1..]);
      ReadsStep(c, at, start, counts[0], Reads(counts));
      SlicesJoin(c, at, at + k, Min(at + k + Sum(counts[1..]), |c|));
    }
  }

  lemma ReadsAreInStream(start: nat, size: nat, ops: seq<ReadOp>)
    requires forall i | 0 <= i < |ops| :: ops[i].Read?
    ensures InStream(start, size, ops)
  {
  }

  lemma NoReadsAtAll(c: seq<byte>, at: nat, start: nat)
    requires at <= |c|
    ensures Concat(PlainReads(c, at, start, Reads([]))) == c[at..Min(at + Sum([]), |c|)]
  {
  }

  lemma ReadsStep(c: seq<byte>, at: nat, start: nat, n: nat, ops: seq<ReadOp>)
    requires at <= |c| && InStream(start, start + |c|, ops) && ops != [] && ops[0] == Read(n)
    ensures InStream(start, start + |c|, ops[1..])
    ensures var k := Min(n, |c| - at);
      Concat(PlainReads(c, at, start, ops)) == c[at..at + k] + Concat(PlainReads(c, at + k, start, ops[1..]))
  {
    RestIsGood(start, start + |c|, ops);
    hide InStream;
    var k := Min(n, |c| - at);
    var rest := PlainReads(c, at + k, start, ops[1..]);
    assert PlainReads(c, at, start, ops) == [c[at..at + k]] + rest;
    hide PlainReads;
    assert ([c[at..at + k]] + rest)[1..] == rest;
  }

  lemma SlicesJoin(c: seq<byte>, from: nat, mid: nat, to: nat)
    requires from <= mid <= to <= |c|
    ensures c[from..mid] + c[mid..to] == c[from..to]
  {
  }

  /** What an absolute in-seek inside the stream leaves pending, good target or not. */
  method SeekForReading(s: CryptoStreamBuf, t: nat)
    requires s.Valid() && Room(s.iv, |s.sbuf.data|) && s.startPosForIV <= t <= |s.sbuf.data|
    modifies s`initEncrypt, s`initDecrypt, s.sbuf`getPos, s.sbuf`putPos
    ensures s.Valid() && s.LogicalPos() == t && s.Whole() == old(s.Whole()) && s.Shifted() == old(s.Shifted())
    ensures s.Pending() == AfterSeek(s.Whole(), s.Shifted(), s.startPosForIV, t)
    ensures GoodTarget(s.startPosForIV, t) ==> s.InStep()
  {
    hide Ciphertext, FreshPending, Room, Crypt;
    var p := s.Seekpos(t, true, false);
    SeekDeliversCiphertext(s.cipher.block, s.key, s.iv, s.startPosForIV, s.sbuf.data, t);
    if !GoodTarget(s.startPosForIV, t) {
      MidBlockSeekIsShifted(s.cipher.block, s.key, s.iv, s.startPosForIV, s.sbuf.data, t);
    }
  }

  /** Seeking and reading n bytes inside the stream: when the read is the ciphertext slice, and when it is not. */
  method ReadAfterSeek(s: CryptoStreamBuf, t: nat, n: nat) returns (r: seq<byte>)
    requires s.Valid() && Room(s.iv, |s.sbuf.data|) && s.startPosForIV <= t && t + n <= |s.sbuf.data|
    modifies s, s.sbuf`getPos, s.sbuf`putPos, s.cipher`encryptCtx, s.encBuffer
    ensures s.Valid() && |r| == n
    ensures var at := t - s.startPosForIV;
      r == old(s.Whole())[at..at + n] <==>
        at % BLK_SIZE == 0 || s.sbuf.data[at..at + n] == s.sbuf.data[t..t + n]
  {
    hide Ciphertext, FreshPending, Room, Crypt;
    SeekReadsSlice(s.cipher.block, s.key, s.iv, s.startPosForIV, s.sbuf.data, t, n);
    r := ReadAfresh(s, t, n);
  }

  /** A seek and a read return the front of what a re-initialised buffer delivers. */
  method ReadAfresh(s: CryptoStreamBuf, t: nat, n: nat) returns (r: seq<byte>)
    requires s.Valid() && t <= |s.sbuf.data|
    modifies s, s.sbuf`getPos, s.sbuf`putPos, s.cipher`encryptCtx, s.encBuffer
    ensures s.Valid()
    ensures var pending := FreshPending(s.cipher.block, s.key, s.iv, s.startPosForIV, s.sbuf.data, t);
      |r| == Min(n, |pending|) && r == pending[..|r|]
  {
    hide FreshPending, CryptoStreamBuf.Pending, CryptoStreamBuf.InStep, CryptoStreamBuf.LogicalPos;
    ghost var pending := FreshPending(s.cipher.block, s.key, s.iv, s.startPosForIV, s.sbuf.data, t);
    SeekAfresh(s, t);
    r := s.Xsgetn(n);
    FrontAndRest(pending, r, s.Pending());
  }

  method SeekAfresh(s: CryptoStreamBuf, t: nat)
    requires s.Valid() && t <= |s.sbuf.data|
    modifies s`initEncrypt, s`initDecrypt, s.sbuf`getPos, s.sbuf`putPos
    ensures s.Valid() && s.Pending() == FreshPending(s.cipher.block, s.key, s.iv, s.startPosForIV, s.sbuf.data, t)
  {
    hide FreshPending;
    var p := s.Seekpos(t, true, false);
  }

  /** A read in step returns the ciphertext slice at the logical position and stays in step. */
  method ReadSlice(s: CryptoStreamBuf, n: nat) returns (r: seq<byte>)
    requires s.Valid() && s.InStep()
    modifies s, s.sbuf`getPos, s.sbuf`putPos, s.cipher`encryptCtx, s.encBuffer
    ensures s.Valid() && s.InStep() && s.Whole() == old(s.Whole())
    ensures s.LogicalPos() == old(s.LogicalPos()) + |r|
    ensures var at := old(s.LogicalPos()) - s.startPosForIV;
      |r| == Min(n, |s.Whole()| - at) && r == s.Whole()[at..at + |r|]
  {
    hide Ciphertext, CryptoStreamBuf.Pending, CryptoStreamBuf.LogicalPos;
    ghost var whole, at := s.Whole(), s.LogicalPos() - s.startPosForIV;
    ghost var pending := s.Pending();
    assert pending == whole[at..];
    hide CryptoStreamBuf.InStep;
    r := s.Xsgetn(n);
    FrontAndRest(pending, r, s.Pending());
    TailOfTail(whole, at, |r|);
  }

  /** Any run of reads and of seeks inside the stream, from any state of the buffer. */
  method RunReads(s: CryptoStreamBuf, ops: seq<ReadOp>) returns (outs: seq<seq<byte>>)
    requires s.Valid() && InStream(s.startPosForIV, |s.sbuf.data|, ops)
    requires Room(s.iv, |s.sbuf.data|) || forall op <- ops :: op.Read?
    modifies s, s.sbuf`getPos, s.sbuf`putPos, s.cipher`encryptCtx, s.encBuffer
    ensures s.Valid()
    ensures outs == SeekReads(old(s.Whole()), old(s.Shifted()), old(s.Pending()), s.startPosForIV, ops)
    ensures old(s.InStep()) && GoodSeeks(s.startPosForIV, ops) ==> s.InStep()
    decreases |ops|
  {
    hide Ciphertext, Crypt, Room, CryptoStreamBuf.InStep, CryptoStreamBuf.Pending, GoodTarget, AfterSeek;
    if ops == [] {
      return [];
    }
    assert ops[0] in ops && forall op <- ops[1..] :: op in ops;
    match ops[0] {
      case SeekTo(t) =>
        SeekForReading(s, t);
        outs := RunReads(s, ops[1..]);
      case Read(n) =>
        ghost var pending := s.Pending();
        var r := s.Xsgetn(n);
        FrontAndRest(pending, r, s.Pending());
        outs := RunReads(s, ops[1..]);
        outs := [r] + outs;
    }
  }

  /** With good seeks the stream buffer behaves like a plain stream over the one-shot ciphertext. */
  method RunGoodReads(s: CryptoStreamBuf, ops: seq<ReadOp>) returns (outs: seq<seq<byte>>)
    requires s.Valid() && s.InStep() && InStream(s.startPosForIV, |s.sbuf.data|, ops) && GoodSeeks(s.startPosForIV, ops)
    requires Room(s.iv, |s.sbuf.data|) || forall op <- ops :: op.Read?
    modifies s, s.sbuf`getPos, s.sbuf`putPos, s.cipher`encryptCtx, s.encBuffer
    ensures s.Valid() && s.InStep()
    ensures outs == PlainReads(old(s.Whole()), old(s.LogicalPos()) - s.startPosForIV, s.startPosForIV, ops)
  {
    hide Ciphertext, Room, CryptoStreamBuf.Pending, CryptoStreamBuf.Shifted;
    GoodSeeksArePlain(s.Whole(), s.Shifted(), s.LogicalPos() - s.startPosForIV, s.startPosForIV, ops);
    outs := RunReads(s, ops);
  }

  /**
   Asking for the read position with a relative seek throws the buffered bytes away: from a
   position the buffer can start over at, what is pending stays the same exactly when nothing was
   buffered; from any other, what is pending afterwards lies `start` bytes too early.
   */
  method TellForReading(s: CryptoStreamBuf) returns (p: int)
    requires s.Valid() && s.InStep() && s.initEncrypt && Room(s.iv, |s.sbuf.data|)
    modifies s`initEncrypt, s`initDecrypt, s.sbuf`getPos, s.sbuf`putPos
    ensures s.Valid() && p == old(s.LogicalPos()) + s.encBufferCnt
    ensures GoodTarget(s.startPosForIV, p) ==> s.Pending() == old(s.Pending())[old(s.encBufferCnt)..]
    ensures GoodTarget(s.startPosForIV, p) ==> (s.Pending() == old(s.Pending()) <==> old(s.encBufferCnt) == 0)
    ensures !GoodTarget(s.startPosForIV, p) ==> s.Pending() == s.Shifted()[p - s.startPosForIV..]
  {
    hide Ciphertext, FreshPending, Crypt, Room, GoodTarget, CryptoStreamBuf.Pending;
    TellLoses(s.cipher.block, s.key, s.iv, s.startPosForIV, s.sbuf.data, s.Pending(), s.encBufferCnt, s.sbuf.getPos);
    p := TellAfresh(s);
  }

  method TellAfresh(s: CryptoStreamBuf) returns (p: int)
    requires s.Valid()
    modifies s`initEncrypt, s`initDecrypt, s.sbuf`getPos, s.sbuf`putPos
    ensures s.Valid() && p == s.sbuf.getPos == old(s.sbuf.getPos)
    ensures s.Pending() == FreshPending(s.cipher.block, s.key, s.iv, s.startPosForIV, s.sbuf.data, s.sbuf.getPos)
  {
    hide FreshPending;
    p := s.Seekoff(0, Cur, true, false);
  }

  /** Re-initialising at `g` with `cnt` bytes buffered, in terms of what was pending. */
  lemma TellLoses(e: BlockFn, key: seq<byte>, iv: Block, start: nat, data: seq<byte>, pending: seq<byte>, cnt: nat,
                  g: nat)
    requires start + cnt <= g <= |data| && Room(iv, |data|)
    requires pending == Ciphertext(e, key, iv, start, data)[g - cnt - start..]
    ensures var fresh' := FreshPending(e, key, iv, start, data, g);
      && (GoodTarget(start, g) ==> fresh' == pending[cnt..] && (fresh' == pending <==> cnt == 0))
      && (!GoodTarget(start, g) ==> fresh' == Crypt(e, key, iv, 0, data)[g - start..])
  {
    hide FreshPending, Crypt, Room, Ciphertext;
    SeekDeliversCiphertext(e, key, iv, start, data, g);
    if GoodTarget(start, g) {
      var whole := Ciphertext(e, key, iv, start, data);
      assert whole[g - cnt - start..][cnt..] == whole[g - start..];
    } else {
      MidBlockSeekIsShifted(e, key, iv, start, data, g);
    }
  }

  // ---------------------------------------------------------------- writes

  /** What a run of writes leaves, flushed: nothing new without a write, else the delivery of one contiguous input. */
  ghost function AfterWrites(s: CryptoStreamBuf, chunks: seq<seq<byte>>): (v: Sink)
    requires s.Valid()
    reads s, s.sbuf, s.cipher, s.decBuffer
    ensures v.put <= |v.data|
  {
    if chunks == [] then s.Flushed() else Deliver(s.cipher.block, s.key, s.iv, s.WriteBase(), Concat(chunks))
  }

  /** Chunked writing delivers what one write of everything would, from any state of the buffer. */
  method RunWrites(s: CryptoStreamBuf, chunks: seq<seq<byte>>)
    requires s.Valid()
    modifies s, s.sbuf`data, s.sbuf`putPos, s.cipher`decryptCtx, s.decBuffer
    ensures s.Valid() && s.Flushed() == old(AfterWrites(s, chunks))
    ensures chunks != [] ==> s.initDecrypt
  {
    hide Deliver;
    ghost var base := s.WriteBase();
    ghost var done := [];
    for i := 0 to |chunks|
      invariant s.Valid() && done == Concat(chunks[..i]) && (i > 0 ==> s.initDecrypt)
      invariant if i == 0 then s.WriteBase() == base && s.Flushed() == old(s.Flushed())
                else s.Flushed() == Deliver(s.cipher.block, s.key, s.iv, base, done)
    {
      var n := s.Xsputn(chunks[i]);
      DeliverAppend(s.cipher.block, s.key, s.iv, base, done, chunks[i]);
      assert chunks[..i + 1] == chunks[..i] + [chunks[i]];
      ConcatAppend(chunks[..i], [chunks[i]]);
      assert Concat([chunks[i]]) == chunks[i];
      done := done + chunks[i];
    }
    assert chunks[..|chunks|] == chunks;
  }

  /**
   Any chunking, then destruction: the sink receives what flushing promises, and on a buffer not
   written to before that is the decryption of all input minus the skipped bytes.
   */
  method WriteAndDestroy(s: CryptoStreamBuf, chunks: seq<seq<byte>>)
    requires s.Valid()
    modifies s, s.sbuf`data, s.sbuf`putPos, s.cipher`decryptCtx, s.decBuffer
    ensures s.sbuf.Valid()
    ensures var v := old(AfterWrites(s, chunks));
      s.sbuf.data == v.data && s.sbuf.putPos == v.put && s.skipCnt == v.skip
    ensures old(!s.initDecrypt && s.decBufferCnt == 0) ==>
      var plain := Crypt(s.cipher.block, s.key, s.iv, 0, Concat(chunks));
      s.sbuf.data == Overwrite(old(s.sbuf.data), old(s.sbuf.putPos), plain[Min(old(s.skipCnt), |plain|)..])
  {
    ghost var v := AfterWrites(s, chunks);
    if !s.initDecrypt && s.decBufferCnt == 0 {
      FirstWrites(s, chunks);
    }
    hide Crypt, AfterWrites, Overwrite;
    RunWrites(s, chunks);
    s.Destroy();
  }

  lemma FirstWrites(s: CryptoStreamBuf, chunks: seq<seq<byte>>)
    requires s.Valid() && !s.initDecrypt && s.decBufferCnt == 0
    ensures var plain := Crypt(s.cipher.block, s.key, s.iv, 0, Concat(chunks));
      AfterWrites(s, chunks).data == Overwrite(s.sbuf.data, s.sbuf.putPos, plain[Min(s.skipCnt, |plain|)..])
  {
    hide Crypt, Overwrite;
    if chunks == [] {
      var v := Sink(s.sbuf.data, s.sbuf.putPos, s.skipCnt, s.cipher.decryptCtx.pos);
      assert s.decBuffer[..0] == [] && Concat(chunks) == [];
      DeliverNothing(s.cipher.block, s.cipher.decryptCtx.key, s.cipher.decryptCtx.iv, v);
      NothingWritten(s.sbuf.data, s.sbuf.putPos);
    }
  }

  lemma NothingWritten(d: seq<byte>, p: nat)
    requires p <= |d|
    ensures Overwrite(d, p, []) == d
  {
  }

  /**
   A write after an out-seek starts the key stream over at the new position: bytes held back
   before the seek are lost, and the skip count is what the earlier writes left of it.
   */
  method WriteAfterOutSeek(s: CryptoStreamBuf, pos: nat, b: seq<byte>)
    requires s.Valid() && pos <= |s.sbuf.data|
    modifies s, s.sbuf`data, s.sbuf`getPos, s.sbuf`putPos, s.cipher`decryptCtx, s.decBuffer
    ensures s.Valid()
    ensures s.Flushed() == Deliver(s.cipher.block, s.key, s.iv, Sink(old(s.sbuf.data), pos, old(s.skipCnt), 0), b)
  {
    hide Deliver;
    var r := s.Seekpos(pos, false, true);
    var n := s.Xsputn(b);
  }

  /** A fresh stream buffer over a stream standing at `start` is in step with the one-shot ciphertext from there. */
  method OpenForReading(e: BlockFn, key: seq<byte>, iv: Block, data: seq<byte>, start: nat) returns (s: CryptoStreamBuf)
    requires start <= |data|
    ensures s.Valid() && s.InStep() && s.startPosForIV == start && s.iv == iv && |s.sbuf.data| == |data|
    ensures s.LogicalPos() == start && s.Whole() == Crypt(e, key, iv, 0, data[start..])
    ensures fresh(s) && fresh(s.sbuf) && fresh(s.cipher) && fresh(s.encBuffer)
  {
    hide Crypt, FreshPending;
    var source := new StreamBuf(data);
    var pos := source.PubSeekpos(start, true, false);
    var cipher := new SymmetricCipher(e);
    s := new CryptoStreamBuf(source, cipher, key, iv);
    OpenDeliversCiphertext(e, key, iv, start, data);
    assert s.Whole()[0..] == s.Whole();
  }

  /** What a stream standing at `start` yields when it is read through a stream buffer in pieces of the given sizes. */
  method EncryptByReads(e: BlockFn, key: seq<byte>, iv: Block, data: seq<byte>, start: nat, counts: seq<nat>)
      returns (sent: seq<byte>)
    requires start <= |data|
    ensures sent == Crypt(e, key, iv, 0, data[start..Min(start + Sum(counts), |data|)])
  {
    hide Crypt, Room, PlainReads, CryptoStreamBuf.InStep, CryptoStreamBuf.Whole;
    var s := OpenForReading(e, key, iv, data, start);
    var outs := RunGoodReads(s, Reads(counts));
    PlainReadsAreConsecutive(Crypt(e, key, iv, 0, data[start..]), 0, start, counts);
    sent := Concat(outs);
    ghost var n := Min(start + Sum(counts), |data|) - start;
    CryptPrefix(e, key, iv, data[start..], n);
    assert data[start..][..n] == data[start..start + n];
  }

  lemma CryptPrefix(e: BlockFn, key: seq<byte>, iv: Block, plain: seq<byte>, n: nat)
    requires n <= |plain|
    ensures Crypt(e, key, iv, 0, plain)[..n] == Crypt(e, key, iv, 0, plain[..n])
  {
    hide Crypt;
    CryptAppend(e, key, iv, 0, plain[..n], plain[n..]);
    assert plain == plain[..n] + plain[n..];
  }

  /** Encrypting by reads of any sizes and decrypting by writes of any sizes gives the bytes back. */
  method EncryptThenDecrypt(e: BlockFn, key: seq<byte>, iv: Block, plain: seq<byte>, counts: seq<nat>, cuts: seq<nat>)
      returns (back: seq<byte>)
    ensures back == plain[..Min(Sum(counts), |plain|)]
  {
    hide Crypt;
    var sent := EncryptByReads(e, key, iv, plain, 0, counts);
    assert plain[0..Min(Sum(counts), |plain|)] == plain[..Min(Sum(counts), |plain|)];
    CryptTwice(e, key, iv, 0, plain[..Min(Sum(counts), |plain|)]);
    var sink := new StreamBuf([]);
    var cipher := new SymmetricCipher(e);
    var writer := new CryptoStreamBuf(sink, cipher, key, iv);
    ConcatCut(sent, cuts);
    WriteAndDestroy(writer, Cut(sent, cuts));
    back := sink.data;
  }
}
