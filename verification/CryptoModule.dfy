/**
 Ranged reads and independently encrypted parts: both start the stream buffer in the middle
 of an object with an advanced counter.
 */
module CryptoModule {
  import opened Bytes
  import opened Ctr
  import opened CryptoStreamBuf
  import opened StreamRuns
  import opened PartPlan
  import opened Wrappers

  datatype Outcome<+T> = Success(value: T) | EncryptionClientError(message: string) | ValidateError

  /** A random initial vector with bytes 8 to 11 cleared. */
  function GenerateIV(random: Block): Block
  {
    random[..8] + [0, 0, 0, 0] + random[12..]
  }

  /** The initial vector the SDK generates: the 32-bit block counter starts below 2^32. */
  predicate GeneratedIV(iv: Block)
  {
    iv[8..12] == [0, 0, 0, 0]
  }

  lemma GenerateIVIsGenerated(random: Block)
    ensures GeneratedIV(GenerateIV(random))
    ensures forall i | 0 <= i < 16 :: GenerateIV(random)[i] == if 8 <= i < 12 then 0 else random[i]
  {
  }

  /** Objects shorter than 2^63 bytes never overflow the 64-bit counter of a generated vector. */
  lemma GeneratedIVRoom(iv: Block, n: nat)
    requires GeneratedIV(iv) && n < TWO_63
    ensures Room(iv, n)
  {
    GeneratedIVHasRoom(iv, 0);
  }

  // ---------------------------------------------------------------- parts

  /** Part `n` of a plaintext, encrypted on its own from the counter UploadPartSecurely computes. */
  function EncryptedPart(e: BlockFn, key: seq<byte>, iv: Block, whole: seq<byte>, ps: nat, n: nat): seq<byte>
    requires 0 < ps && 1 <= n <= PartCount(|whole|, ps)
  {
    Crypt(e, key, PartCounter(iv, ps, n), 0, PartBytes(whole, ps, n))
  }

  function PartCounter(iv: Block, ps: nat, n: nat): Block
    requires n >= 1
  {
    IncCTRCounter(iv, ps * (n - 1) / BLK_SIZE % TWO_64)
  }

  function EncryptedParts(e: BlockFn, key: seq<byte>, iv: Block, whole: seq<byte>, ps: nat, count: nat): seq<byte>
    requires 0 < ps && count <= PartCount(|whole|, ps)
  {
    if count == 0 then []
    else EncryptedParts(e, key, iv, whole, ps, count - 1) + EncryptedPart(e, key, iv, whole, ps, count)
  }

  lemma PartCounterInRoom(iv: Block, ps: nat, n: nat, size: nat)
    requires n >= 1 && ps % BLK_SIZE == 0 && ps * (n - 1) <= size && Room(iv, size)
    ensures PartCounter(iv, ps, n) == CounterBlock(iv, ps * (n - 1) / BLK_SIZE)
    ensures BLK_SIZE * (ps * (n - 1) / BLK_SIZE) == ps * (n - 1)
  {
    hide IncCTRCounter, CounterBlock, LowHalf;
    var at := ps * (n - 1);
    assert at == BLK_SIZE * (ps / BLK_SIZE * (n - 1)) by {
      MulAssoc(BLK_SIZE, ps / BLK_SIZE, n - 1);
    }
    DivUnique(at, BLK_SIZE, ps / BLK_SIZE * (n - 1), 0);
    DivMonotone(at, size, BLK_SIZE);
    assert LowHalf(iv) + at / BLK_SIZE < TWO_64;
    ModOnce(at / BLK_SIZE, TWO_64);
    IncCTRCounterIsIncrement(iv, at / BLK_SIZE, true);
  }

  lemma MulAssoc(a: int, b: int, c: int)
    ensures (a * b) * c == a * (b * c)
  {
  }

  lemma DivMonotone(a: nat, b: nat, m: nat)
    requires a <= b && m > 0
    ensures a / m <= b / m
  {
    var d := b / m - a / m;
    assert m * d == (b - b % m) - (a - a % m);
    NotNegative(m, d);
  }

  lemma NotNegative(m: nat, d: int)
    requires m * d + m > 0
    ensures d >= 0
  {
  }

  /** One part is the slice of the one-shot ciphertext it will sit at. */
  lemma EncryptedPartIsSlice(e: BlockFn, key: seq<byte>, iv: Block, whole: seq<byte>, ps: nat, n: nat)
    requires 0 < ps && ps % BLK_SIZE == 0 && 1 <= n <= PartCount(|whole|, ps) && Room(iv, |whole|)
    ensures EncryptedPart(e, key, iv, whole, ps, n) == Crypt(e, key, iv, ps * (n - 1), PartBytes(whole, ps, n))
  {
    hide Crypt, IncCTRCounter, CounterBlock, Room;
    PartRange(|whole|, ps, n);
    PartCounterInRoom(iv, ps, n, |whole|);
    CryptFromBlock(e, key, iv, ps * (n - 1) / BLK_SIZE, 0, PartBytes(whole, ps, n));
  }

  /** The parts encrypted one by one spell a prefix of the one-shot ciphertext. */
  lemma {:induction false} EncryptedPartsPrefix(e: BlockFn, key: seq<byte>, iv: Block, whole: seq<byte>, ps: nat,
                                                count: nat)
    requires 0 < ps && ps % BLK_SIZE == 0 && count <= PartCount(|whole|, ps) && Room(iv, |whole|)
    ensures EncryptedParts(e, key, iv, whole, ps, count)
         == Crypt(e, key, iv, 0, whole[..PartsLength(|whole|, ps, count)])
  {
    hide Crypt, Room, PartCount, EncryptedPart;
    if count > 0 {
      EncryptedPartsPrefix(e, key, iv, whole, ps, count - 1);
      EncryptedPartIsSlice(e, key, iv, whole, ps, count);
      PartRange(|whole|, ps, count);
      var a := whole[..PartsLength(|whole|, ps, count - 1)];
      var b := PartBytes(whole, ps, count);
      assert a + b == whole[..PartsLength(|whole|, ps, count)];
      CryptAppend(e, key, iv, 0, a, b);
    }
  }

  /** All parts together are the one-shot encryption of the whole object, whatever the last part's length. */
  lemma PartsMakeTheWhole(e: BlockFn, key: seq<byte>, iv: Block, whole: seq<byte>, ps: nat)
    requires 0 < ps && ps % BLK_SIZE == 0 && whole != [] && |whole| < TWO_63 && GeneratedIV(iv)
    ensures EncryptedParts(e, key, iv, whole, ps, PartCount(|whole|, ps)) == Crypt(e, key, iv, 0, whole)
  {
    hide Crypt, Room, EncryptedParts;
    GeneratedIVRoom(iv, |whole|);
    EncryptedPartsPrefix(e, key, iv, whole, ps, PartCount(|whole|, ps));
    assert whole[..|whole|] == whole;
  }

  /** For parts that are sent the division that rounds toward zero is the ordinary one. */
  lemma CounterOfPart(iv: Block, ps: nat, n: nat)
    requires n >= 1
    ensures IncCTRCounter(iv, TruncDiv(ps * (n - 1), BLK_SIZE) % TWO_64) == PartCounter(iv, ps, n)
  {
    hide IncCTRCounter;
    MulNotNegative(ps, n - 1);
  }

  lemma MulNotNegative(a: nat, b: nat)
    ensures a * b >= 0
  {
  }

  /**
   Checks the context, advances the counter to the part and encrypts its body as it is read from
   position `at` on, in pieces of the given sizes; the request then checks its own part number.
   */
  method UploadPartSecurely(e: BlockFn, partSize: int, key: seq<byte>, iv: Option<Block>, body: seq<byte>, at: nat,
                            partNumber: int, counts: seq<nat>) returns (sent: Outcome<seq<byte>>)
    requires at <= |body|
    ensures sent.Success? <==>
      partSize >= 102400 && partSize % 16 == 0 && key != [] && iv.Some? && 0 < partNumber < 10000
    ensures partSize < 102400 ==> sent == EncryptionClientError("PartSize should not be less than 102400.")
    ensures partSize >= 102400 && partSize % 16 != 0 ==>
      sent == EncryptionClientError("PartSize is not 16 bytes alignment.")
    ensures partSize >= 102400 && partSize % 16 == 0 && (key == [] || iv.None?) ==>
      sent == EncryptionClientError("ContentKey/IV in CryptoContext is empty.")
    ensures sent.Success? ==>
      var stop := Min(at + Sum(counts), |body|);
      sent.value == Crypt(e, key, PartCounter(iv.value, partSize, partNumber), 0, body[at..stop])
  {
    hide Crypt, IncCTRCounter, TruncDiv, PartCounter;
    if partSize < PART_SIZE_LOWER_LIMIT {
      return EncryptionClientError("PartSize should not be less than 102400.");
    }
    if partSize % 16 != 0 {
      return EncryptionClientError("PartSize is not 16 bytes alignment.");
    }
    if key == [] || iv.None? {
      return EncryptionClientError("ContentKey/IV in CryptoContext is empty.");
    }
    var fileOffset := partSize * (partNumber - 1);
    var blockNum := TruncDiv(fileOffset, BLK_SIZE);
    var counter := IncCTRCounter(iv.value, blockNum % TWO_64);
    if !PartNumberAccepted(partNumber) {
      return ValidateError;
    }
    CounterOfPart(iv.value, partSize, partNumber);
    var bytes := EncryptByReads(e, key, counter, body, at, counts);
    sent := Success(bytes);
  }

  /** The conditions under which every part of a non-empty object is sent. */
  predicate UploadIsAccepted(size: nat, partSize: int, key: seq<byte>)
    requires partSize > 0
  {
    CheckUserParameter(partSize) && key != [] && PartCount(size, partSize) < PART_NUMBER_UPPER_LIMIT
  }

  lemma NoParts(e: BlockFn, key: seq<byte>, iv: Block, whole: seq<byte>, ps: nat)
    requires 0 < ps
    ensures EncryptedParts(e, key, iv, whole, ps, 0) == [] && Crypt(e, key, iv, 0, []) == []
  {
  }

  /** Reading as many bytes as part n has from its offset reads the part. */
  lemma UploadedRange(whole: seq<byte>, ps: nat, n: nat, sum: nat)
    requires 0 < ps && 1 <= n <= PartCount(|whole|, ps) && sum == PlannedPart(|whole|, ps, n).size
    ensures ps * (n - 1) < |whole| && Min(ps * (n - 1) + sum, |whole|) == ps * (n - 1) + sum
    ensures whole[ps * (n - 1)..ps * (n - 1) + sum] == PartBytes(whole, ps, n)
  {
    PartRange(|whole|, ps, n);
    PlannedPartSize(|whole|, ps, n);
  }

  lemma OneMorePart(e: BlockFn, key: seq<byte>, iv: Block, whole: seq<byte>, ps: nat, n: nat)
    requires 0 < ps && 1 <= n <= PartCount(|whole|, ps)
    ensures EncryptedParts(e, key, iv, whole, ps, n) == EncryptedParts(e, key, iv, whole, ps, n - 1)
      + Crypt(e, key, PartCounter(iv, ps, n), 0, PartBytes(whole, ps, n))
  {
    hide Crypt, PartBytes, PartCount;
  }

  /** Uploads every part of an object in turn, each read from its offset in pieces of sizes of its own. */
  method UploadParts(e: BlockFn, partSize: int, key: seq<byte>, iv: Block, whole: seq<byte>, counts: nat -> seq<nat>)
      returns (ok: bool, stored: seq<byte>)
    requires partSize > 0 && GeneratedIV(iv) && |whole| < TWO_63
    requires forall n: nat | 1 <= n <= PartCount(|whole|, partSize) ::
      Sum(counts(n)) == PlannedPart(|whole|, partSize, n).size
    ensures ok <==>
      || whole == []
      || (partSize >= 102400 && partSize % 16 == 0 && key != [] && PartCount(|whole|, partSize) < 10000)
    ensures ok ==> stored == Crypt(e, key, iv, 0, whole)
  {
    hide Crypt, PartCounter, EncryptedPart, EncryptedParts, Room, PartBytes, PlannedPart;
    ok, stored := true, [];
    var partCount := PartCount(|whole|, partSize);
    GeneratedIVRoom(iv, |whole|);
    NoParts(e, key, iv, whole, partSize);
    for i := 0 to partCount
      invariant stored == EncryptedParts(e, key, iv, whole, partSize, i)
      invariant i > 0 ==> CheckUserParameter(partSize) && key != [] && i < PART_NUMBER_UPPER_LIMIT
    {
      hide PartCount, Sum;
      UploadedRange(whole, partSize, i + 1, Sum(counts(i + 1)));
      var sent := UploadPartSecurely(e, partSize, key, Some(iv), whole, partSize * i, i + 1, counts(i + 1));
      if !sent.Success? {
        return false, stored;
      }
      OneMorePart(e, key, iv, whole, partSize, i + 1);
      stored := stored + sent.value;
    }
    if partCount > 0 {
      EncryptedPartsPrefix(e, key, iv, whole, partSize, partCount);
      PartRange(|whole|, partSize, partCount);
    }
    assert whole[..|whole|] == whole;
    assert partCount == 0 ==> whole[..0] == whole;
  }

  // ---------------------------------------------------------------- ranged reads

  /** A byte range of a GET: nothing, or a first byte and a last byte where -1 means to the end. */
  datatype Range = Whole | FromTo(first: nat, last: int)

  /** Ranges that lie inside an object of `size` bytes. */
  predicate Satisfiable(r: Range, size: nat)
  {
    r.FromTo? ==> r.first < size && (r.last == -1 || r.first <= r.last < size)
  }

  function First(r: Range): nat { if r.FromTo? then r.first else 0 }

  /** One past the last byte of a range. */
  function Stop(r: Range, size: nat): (s: nat)
    requires Satisfiable(r, size)
    ensures First(r) <= s <= size
  {
    if r.FromTo? && r.last != -1 then r.last + 1 else size
  }

  /** The range asked of the server: from the start of the block the range begins in. */
  function Asked(r: Range): Range
  {
    if r.FromTo? && r.first > 0 then FromTo(r.first / BLK_SIZE * BLK_SIZE, r.last) else r
  }

  /** The counter at that block. */
  function RangeCounter(iv: Block, r: Range): Block
  {
    if First(r) > 0 then IncCTRCounter(iv, First(r) / BLK_SIZE) else iv
  }

  /** The bytes of an object a server picks for a range it is asked for, as first and one past the last. */
  type Server = Range -> (nat, nat)

  ghost predicate Serves(server: Server, size: nat)
  {
    forall r :: server(r).0 <= server(r).1 <= size
  }

  /** A server that answers a range inside the object with that range. */
  ghost predicate Exact(server: Server, size: nat)
  {
    forall r :: Satisfiable(r, size) ==> server(r) == (First(r), Stop(r, size))
  }

  /**
   Fetches from the start of the block the range begins in, decrypts the answer as it arrives
   in pieces, drops the bytes before the range and corrects the content length. Whatever the
   server answers is decrypted as if it started at that block; an exact answer gives the range.
   */
  method GetObjectSecurely(e: BlockFn, key: seq<byte>, iv: Block, stored: seq<byte>, range: Range, server: Server,
                           cuts: seq<nat>, content: StreamBuf) returns (contentLength: int)
    requires content.Valid() && Serves(server, |stored|)
    modifies content
    ensures content.Valid()
    ensures var (from, to) := server(Asked(range));
      var plain := Crypt(e, key, RangeCounter(iv, range), 0, stored[from..to]);
      var kept := plain[Min(First(range) % BLK_SIZE, |plain|)..];
      && content.data == Overwrite(old(content.data), old(content.putPos), kept)
      && contentLength == |plain| - First(range) % BLK_SIZE
    ensures Exact(server, |stored|) && Satisfiable(range, |stored|) && Room(iv, |stored|) ==>
      var plain := Crypt(e, key, iv, 0, stored);
      var wanted := if range.Whole? then plain
        else if range.last == -1 then plain[range.first..] else plain[range.first..range.last + 1];
      content.data == Overwrite(old(content.data), old(content.putPos), wanted) && contentLength == |wanted|
  {
    hide Crypt, IncCTRCounter, Overwrite, Room, Satisfiable, Exact, AfterWrites;
    var skipCnt, ctr, asked := 0, iv, range;
    if range.FromTo? && range.first > 0 {
      var blockOfNum := range.first / BLK_SIZE;
      var newBegin := blockOfNum * BLK_SIZE;
      skipCnt := range.first % BLK_SIZE;
      asked := FromTo(newBegin, range.last);
      ctr := IncCTRCounter(iv, blockOfNum);
    }
    var (from, to) := server(asked);
    var answer := stored[from..to];
    contentLength := |answer|;
    var cipher := new SymmetricCipher(e);
    var stream := new CryptoStreamBuf(content, cipher, key, ctr, skipCnt);
    ConcatCut(answer, cuts);
    WriteAndDestroy(stream, Cut(answer, cuts));
    if skipCnt > 0 {
      contentLength := contentLength - skipCnt;
    }
    ghost var plain := Crypt(e, key, ctr, 0, answer);
    assert content.data == Overwrite(old(content.data), old(content.putPos), plain[Min(skipCnt, |plain|)..]);
    if Exact(server, |stored|) && Satisfiable(range, |stored|) && Room(iv, |stored|) {
      RangeArrives(e, key, iv, stored, range, server);
    }
  }

  /** From an exact answer, decrypting and skipping leave the range and its length. */
  lemma RangeArrives(e: BlockFn, key: seq<byte>, iv: Block, stored: seq<byte>, range: Range, server: Server)
    requires Serves(server, |stored|) && Exact(server, |stored|) && Satisfiable(range, |stored|) && Room(iv, |stored|)
    ensures var (from, to) := server(Asked(range));
      var plain := Crypt(e, key, RangeCounter(iv, range), 0, stored[from..to]);
      var all := Crypt(e, key, iv, 0, stored);
      var wanted := if range.Whole? then all
        else if range.last == -1 then all[range.first..] else all[range.first..range.last + 1];
      && plain[Min(First(range) % BLK_SIZE, |plain|)..] == wanted
      && |plain| - First(range) % BLK_SIZE == |wanted|
  {
    AskedIsSatisfiable(range, |stored|);
    WantedIsSlice(range, Crypt(e, key, iv, 0, stored));
    RangeDecrypts(e, key, iv, stored, range);
    hide Crypt, RangeCounter, Room, Satisfiable, Stop, Asked;
  }

  lemma WantedIsSlice(r: Range, plain: seq<byte>)
    requires Satisfiable(r, |plain|)
    ensures plain[First(r)..Stop(r, |plain|)] ==
      if r.Whole? then plain else if r.last == -1 then plain[r.first..] else plain[r.first..r.last + 1]
  {
  }

  lemma AskedIsSatisfiable(r: Range, size: nat)
    requires Satisfiable(r, size)
    ensures Satisfiable(Asked(r), size) && Stop(Asked(r), size) == Stop(r, size)
    ensures First(Asked(r)) == First(r) - First(r) % BLK_SIZE
  {
  }

  /** Decrypting from the block boundary with the advanced counter and skipping hits the range. */
  lemma RangeDecrypts(e: BlockFn, key: seq<byte>, iv: Block, stored: seq<byte>, r: Range)
    requires Satisfiable(r, |stored|) && Room(iv, |stored|)
    ensures var stop, from := Stop(r, |stored|), First(r) - First(r) % BLK_SIZE;
      Crypt(e, key, RangeCounter(iv, r), 0, stored[from..stop])[First(r) % BLK_SIZE..]
        == Crypt(e, key, iv, 0, stored)[First(r)..stop]
  {
    hide Crypt, IncCTRCounter, CounterBlock, Room;
    RangeCounterIsBlock(iv, r, |stored|);
    BlockDecrypts(e, key, iv, stored, First(r) / BLK_SIZE, First(r), Stop(r, |stored|));
  }

  lemma BlockDecrypts(e: BlockFn, key: seq<byte>, iv: Block, stored: seq<byte>, k: nat, first: nat, stop: nat)
    requires BLK_SIZE * k <= first <= stop <= |stored|
    ensures var from := BLK_SIZE * k;
      Crypt(e, key, CounterBlock(iv, k), 0, stored[from..stop])[first - from..]
        == Crypt(e, key, iv, 0, stored)[first..stop]
  {
    hide Crypt, CounterBlock;
    var from := BLK_SIZE * k;
    CryptFromBlock(e, key, iv, k, 0, stored[from..stop]);
    CryptTail(e, key, iv, from, stored[from..stop], first - from);
    assert stored[from..stop][first - from..] == stored[first..stop];
    CryptSlice(e, key, iv, 0, stored, first, stop - first);
  }

  lemma RangeCounterIsBlock(iv: Block, r: Range, size: nat)
    requires First(r) <= size && Room(iv, size)
    ensures RangeCounter(iv, r) == CounterBlock(iv, First(r) / BLK_SIZE)
  {
    hide IncCTRCounter, CounterBlock, LowHalf;
    if First(r) > 0 {
      DivMonotone(First(r), size, BLK_SIZE);
      IncCTRCounterIsIncrement(iv, First(r) / BLK_SIZE, true);
    } else {
      CounterBlockZero(iv);
    }
  }

  /**
   An object uploaded in independently encrypted parts and fetched by range: the upload succeeds
   exactly when every part passes its checks, and the fetch gives the plain bytes of the range back.
   */
  method FetchUploadedParts(e: BlockFn, partSize: int, key: seq<byte>, iv: Block, whole: seq<byte>,
                            counts: nat -> seq<nat>, range: Range, server: Server, cuts: seq<nat>, content: StreamBuf)
      returns (ok: bool, contentLength: int)
    requires partSize > 0 && GeneratedIV(iv) && |whole| < TWO_63
    requires forall n: nat | 1 <= n <= PartCount(|whole|, partSize) ::
      Sum(counts(n)) == PlannedPart(|whole|, partSize, n).size
    requires Serves(server, |whole|) && Exact(server, |whole|) && Satisfiable(range, |whole|) && content.Valid()
    modifies content
    ensures content.Valid()
    ensures ok <==>
      || whole == []
      || (partSize >= 102400 && partSize % 16 == 0 && key != [] && PartCount(|whole|, partSize) < 10000)
    ensures ok ==>
      && contentLength == Stop(range, |whole|) - First(range)
      && content.data == Overwrite(old(content.data), old(content.putPos), whole[First(range)..Stop(range, |whole|)])
  {
    hide Crypt, Overwrite, PartCount, PlannedPart, Sum, CheckUserParameter, Room;
    var stored;
    contentLength := 0;
    ok, stored := UploadParts(e, partSize, key, iv, whole, counts);
    if ok {
      CryptTwice(e, key, iv, 0, whole);
      GeneratedIVRoom(iv, |whole|);
      contentLength := GetObjectSecurely(e, key, iv, stored, range, server, cuts, content);
    }
  }
}
