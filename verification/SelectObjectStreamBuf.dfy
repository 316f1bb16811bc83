/**
 The select-object frame depacker: an incremental parser fed with arbitrary chunks. Its
 specification reads one byte at a time; a second, direct description reads whole frames.
 */
module SelectObjectStreamBuf {
  import opened Bytes

  const FRAME_HEADER_LEN := 20
  const DATA_FRAME := 0x800001
  const END_FRAME := 0x800005
  const END_FRAME_ROOM := 256
  const CHECK_SUM_FAILED := -1
  const ARG_ERROR_SELECT_OBJECT_CHECK_SUM_FAILED := 101061

  type uint32 = x: int | 0 <= x < 0x1_0000_0000

  /** One byte of the running checksum; any such fold has the append law below. */
  type CrcStep = (uint32, byte) -> uint32

  function Crc(k: CrcStep, c: uint32, b: seq<byte>): uint32
    decreases |b|
  {
    if b == [] then c else Crc(k, k(c, b[0]), b[1..])
  }

  lemma {:induction false} CrcAppend(k: CrcStep, c: uint32, a: seq<byte>, b: seq<byte>)
    ensures Crc(k, c, a + b) == Crc(k, Crc(k, c, a), b)
    decreases |a|
  {
    if a == [] {
      assert a + b == b;
    } else {
      CrcAppend(k, k(c, a[0]), a[1..], b);
      assert (a + b)[1..] == a[1..] + b;
    }
  }

  // ---------------------------------------------------------------- one byte at a time

  /** The parser between two bytes, and everything it has written out. */
  datatype Parser = Parser(header: seq<byte>, tail: seq<byte>, remains: int, crc: uint32, endSize: nat, sink: seq<byte>)

  predicate Sane(v: Parser)
  {
    && |v.header| <= FRAME_HEADER_LEN && |v.tail| <= 4 && v.endSize <= END_FRAME_ROOM
    && (|v.header| < FRAME_HEADER_LEN ==> v.remains == 0)
    && (v.tail != [] ==> |v.header| == FRAME_HEADER_LEN && v.remains <= 0)
  }

  /** A full tail at rest is one whose checksum was refused. */
  predicate Stuck(v: Parser) { |v.tail| == 4 }

  predicate Settled(v: Parser)
  {
    Stuck(v) ==> BE(v.tail) != 0 && BE(v.tail) != v.crc
  }

  predicate AtRest(v: Parser)
  {
    v.header == [] && v.tail == [] && v.remains == 0 && v.endSize == 0
  }

  function FrameType(header: seq<byte>): nat
    requires |header| == FRAME_HEADER_LEN
  {
    BE(header[1..4])
  }

  /** Header bytes added; a complete header fixes the payload length and starts the checksum. */
  function WithHeader(k: CrcStep, init: uint32, v: Parser, h: seq<byte>): Parser
    requires |h| <= FRAME_HEADER_LEN
  {
    if |h| < FRAME_HEADER_LEN then v.(header := h)
    else v.(header := h, remains := ToInt32((BE(h[4..8]) - 8) % 0x1_0000_0000), crc := Crc(k, init, h[12..20]))
  }

  function WithPayload(k: CrcStep, v: Parser, p: seq<byte>): Parser
    requires |v.header| == FRAME_HEADER_LEN
  {
    var kind := FrameType(v.header);
    v.(remains := v.remains - |p|, crc := Crc(k, v.crc, p),
       sink := if kind == DATA_FRAME then v.sink + p else v.sink,
       endSize := if kind == END_FRAME then Min(END_FRAME_ROOM, v.endSize + |p|) else v.endSize)
  }

  /** Tail bytes added; a complete tail that is zero or matches the checksum ends the frame. */
  function WithTail(v: Parser, t: seq<byte>): Parser
    requires |t| <= 4
  {
    if |t| == 4 && (BE(t) == 0 || BE(t) == v.crc) then Parser([], [], 0, v.crc, 0, v.sink)
    else v.(tail := t)
  }

  function FeedByte(k: CrcStep, init: uint32, v: Parser, b: byte): (w: Parser)
    requires Sane(v)
    ensures Sane(w)
  {
    if Stuck(v) then v
    else if |v.header| < FRAME_HEADER_LEN then WithHeader(k, init, v, v.header + [b])
    else if v.remains > 0 then WithPayload(k, v, [b])
    else WithTail(v, v.tail + [b])
  }

  function Feed(k: CrcStep, init: uint32, v: Parser, b: seq<byte>): (w: Parser)
    requires Sane(v)
    ensures Sane(w)
    decreases |b|
  {
    if b == [] then v else Feed(k, init, FeedByte(k, init, v, b[0]), b[1..])
  }

  /** Writing a and then b leaves what writing a + b leaves, for any bytes. */
  lemma {:induction false} FeedAppend(k: CrcStep, init: uint32, v: Parser, a: seq<byte>, b: seq<byte>)
    requires Sane(v)
    ensures Feed(k, init, v, a + b) == Feed(k, init, Feed(k, init, v, a), b)
    decreases |a|
  {
    hide FeedByte;
    if a == [] {
      assert a + b == b;
    } else {
      FeedAppend(k, init, FeedByte(k, init, v, a[0]), a[1..], b);
      assert (a + b)[1..] == a[1..] + b;
    }
  }

  /** After a refused checksum nothing changes any more. */
  lemma {:induction false} StuckStays(k: CrcStep, init: uint32, v: Parser, b: seq<byte>)
    requires Sane(v) && Stuck(v)
    ensures Feed(k, init, v, b) == v
    decreases |b|
  {
    if b != [] {
      StuckStays(k, init, v, b[1..]);
    }
  }

  lemma {:induction false} FeedHeader(k: CrcStep, init: uint32, v: Parser, h: seq<byte>)
    requires Sane(v) && |v.header| < FRAME_HEADER_LEN && |v.header| + |h| <= FRAME_HEADER_LEN
    ensures Feed(k, init, v, h) == WithHeader(k, init, v, v.header + h)
    decreases |h|
  {
    hide BE, Crc, ToInt32;
    if h == [] {
      assert v.header + h == v.header;
    } else {
      var w := FeedByte(k, init, v, h[0]);
      assert v.header + h == (v.header + [h[0]]) + h[1..];
      if |h| > 1 {
        FeedHeader(k, init, w, h[1..]);
      } else {
        assert v.header + h == v.header + [h[0]];
      }
    }
  }

  lemma {:induction false} FeedPayload(k: CrcStep, init: uint32, v: Parser, p: seq<byte>)
    requires Sane(v) && |v.header| == FRAME_HEADER_LEN && |p| <= v.remains
    ensures Feed(k, init, v, p) == WithPayload(k, v, p)
    decreases |p|
  {
    hide FrameType;
    if p == [] {
      assert v.sink + p == v.sink;
    } else {
      var w := FeedByte(k, init, v, p[0]);
      assert Crc(k, v.crc, [p[0]]) == k(v.crc, p[0]);
      FeedPayload(k, init, w, p[1..]);
      assert v.sink + p == (v.sink + [p[0]]) + p[1..];
    }
  }

  lemma {:induction false} FeedTail(k: CrcStep, init: uint32, v: Parser, t: seq<byte>)
    requires Sane(v) && |v.header| == FRAME_HEADER_LEN && v.remains <= 0 && |v.tail| < 4 && |v.tail| + |t| <= 4
    ensures Feed(k, init, v, t) == WithTail(v, v.tail + t)
    decreases |t|
  {
    hide BE;
    if t == [] {
      assert v.tail + t == v.tail;
    } else {
      var w := FeedByte(k, init, v, t[0]);
      assert v.tail + t == (v.tail + [t[0]]) + t[1..];
      if |t| > 1 {
        FeedTail(k, init, w, t[1..]);
      } else {
        assert v.tail + t == v.tail + [t[0]];
      }
    }
  }

  // ---------------------------------------------------------------- whole frames

  /** Version, 24-bit type, 32-bit length of offset and data, header checksum, offset, data, checksum. */
  datatype SelectFrame = SelectFrame(version: byte, kind: nat, headerSum: seq<byte>,
                                     offset: seq<byte>, data: seq<byte>, checksum: uint32)

  predicate WellFormed(f: SelectFrame)
  {
    f.kind < 0x100_0000 && |f.headerSum| == 4 && |f.offset| == 8 && |f.data| < TWO_31
  }

  function Header(f: SelectFrame): (h: seq<byte>)
    requires WellFormed(f)
    ensures |h| == FRAME_HEADER_LEN
  {
    [f.version] + ToBE(f.kind, 3) + ToBE(8 + |f.data|, 4) + f.headerSum + f.offset
  }

  function Encode(f: SelectFrame): seq<byte>
    requires WellFormed(f)
  {
    Header(f) + f.data + ToBE(f.checksum, 4)
  }

  function EncodeAll(frames: seq<SelectFrame>): seq<byte>
    requires forall f <- frames :: WellFormed(f)
  {
    if frames == [] then [] else Encode(frames[0]) + EncodeAll(frames[1..])
  }

  /** The receiver's rule: a zero checksum is not checked. */
  predicate ChecksumHolds(k: CrcStep, init: uint32, f: SelectFrame)
  {
    f.checksum == 0 || f.checksum == Crc(k, init, f.offset + f.data)
  }

  /** What a list of frames stands for: the data of its data frames, up to and with the first refused one. */
  function Content(k: CrcStep, init: uint32, frames: seq<SelectFrame>): seq<byte>
  {
    if frames == [] then []
    else
      var data := if frames[0].kind == DATA_FRAME then frames[0].data else [];
      if ChecksumHolds(k, init, frames[0]) then data + Content(k, init, frames[1..]) else data
  }

  /** The fields of a header on the wire: version, 24-bit type, 32-bit length, checksum, offset. */
  lemma HeaderLayout(f: SelectFrame)
    requires WellFormed(f)
    ensures var h := Header(f);
      && h[0] == f.version
      && f.kind == (h[1] as int) * 0x1_0000 + (h[2] as int) * 0x100 + h[3]
      && 8 + |f.data| == (h[4] as int) * 0x100_0000 + (h[5] as int) * 0x1_0000 + (h[6] as int) * 0x100 + h[7]
      && h[8..12] == f.headerSum && h[12..20] == f.offset
      && Encode(f)[..20] == h && Encode(f)[20..20 + |f.data|] == f.data
  {
    var kind, length, h := ToBE(f.kind, 3), ToBE(8 + |f.data|, 4), Header(f);
    assert Pow256(2) == 0x1_0000;
    assert Pow256(4) == 0x1_0000_0000;
    BEOfToBE(f.kind, 3);
    BEOfToBE(8 + |f.data|, 4);
    BEWeights(kind);
    BEWeights(length);
    hide ToBE, BE, Pow256;
    assert h[1..4] == kind && h[4..8] == length;
    assert h[1] == kind[0] && h[2] == kind[1] && h[3] == kind[2];
    assert h[4] == length[0] && h[5] == length[1] && h[6] == length[2] && h[7] == length[3];
  }

  /** What the parser makes of header bytes, byte by byte: the type, and the payload without the offset. */
  lemma HeaderFields(k: CrcStep, init: uint32, v: Parser, h: seq<byte>)
    requires |h| == FRAME_HEADER_LEN
    ensures FrameType(h) == (h[1] as int) * 0x1_0000 + (h[2] as int) * 0x100 + h[3]
    ensures var length := (h[4] as int) * 0x100_0000 + (h[5] as int) * 0x1_0000 + (h[6] as int) * 0x100 + h[7];
      var w := WithHeader(k, init, v, h);
      && w.crc == Crc(k, init, h[12..20])
      && (8 <= length < TWO_31 + 8 ==> w.remains == length - 8)
      && (length < 8 ==> w.remains == length - 8 < 0)
  {
    BEWeights(h[1..4]);
    BEWeights(h[4..8]);
    hide BE, Crc;
  }

  lemma HeaderMeaning(f: SelectFrame)
    requires WellFormed(f)
    ensures FrameType(Header(f)) == f.kind
    ensures ToInt32((BE(Header(f)[4..8]) - 8) % 0x1_0000_0000) == |f.data|
    ensures Header(f)[12..20] == f.offset
  {
    var kind, length := ToBE(f.kind, 3), ToBE(8 + |f.data|, 4);
    var h := Header(f);
    BEOfToBE(f.kind, 3);
    BEOfToBE(8 + |f.data|, 4);
    hide ToBE, BE;
    assert h[1..4] == kind && h[4..8] == length && h[12..20] == f.offset;
  }

  /** One frame: its data goes to the sink, and the parser comes to rest exactly when the checksum holds. */
  lemma FrameIsRead(k: CrcStep, init: uint32, v: Parser, f: SelectFrame)
    requires AtRest(v) && WellFormed(f)
    ensures var w := Feed(k, init, v, Encode(f));
      && w.sink == v.sink + Content(k, init, [f])
      && (if ChecksumHolds(k, init, f) then AtRest(w) else Stuck(w))
  {
    hide Feed, WithHeader, Header, FrameType, Crc, BE, ToInt32;
    var h, t := Header(f), ToBE(f.checksum, 4);
    var v1 := Feed(k, init, v, h);
    FeedHeader(k, init, v, h);
    assert v.header + h == h;
    HeaderMeaning(f);
    HeaderRead(k, init, v, f);
    var v2 := Feed(k, init, v1, f.data);
    FeedPayload(k, init, v1, f.data);
    CrcAppend(k, init, f.offset, f.data);
    FeedTail(k, init, v2, t);
    assert v2.tail + t == t;
    BEOfToBE(f.checksum, 4);
    FeedAppend(k, init, v, h, f.data);
    FeedAppend(k, init, v, h + f.data, t);
    ContentOfOne(k, init, f);
    assert v.sink + [] == v.sink;
  }

  lemma HeaderRead(k: CrcStep, init: uint32, v: Parser, f: SelectFrame)
    requires WellFormed(f)
    ensures WithHeader(k, init, v, Header(f))
         == v.(header := Header(f), remains := |f.data|, crc := Crc(k, init, f.offset))
  {
    HeaderMeaning(f);
  }

  lemma ContentOfOne(k: CrcStep, init: uint32, f: SelectFrame)
    ensures Content(k, init, [f]) == if f.kind == DATA_FRAME then f.data else []
  {
    assert [f][1..] == [];
  }

  /**
   A list of frames in any chunking: the sink gets the content of the list, and the parser is
   back at rest exactly when every checksum is zero or correct.
   */
  lemma FramesAreRead(k: CrcStep, init: uint32, v: Parser, frames: seq<SelectFrame>)
    requires AtRest(v) && forall f <- frames :: WellFormed(f)
    ensures var w := Feed(k, init, v, EncodeAll(frames));
      && w.sink == v.sink + Content(k, init, frames)
      && (AtRest(w) <==> forall f <- frames :: f.checksum == 0 || f.checksum == Crc(k, init, f.offset + f.data))
  {
    hide Feed, EncodeAll, Content, Crc;
    FramesAreFed(k, init, v, frames);
  }

  lemma {:induction false} FramesAreFed(k: CrcStep, init: uint32, v: Parser, frames: seq<SelectFrame>)
    requires AtRest(v) && forall f <- frames :: WellFormed(f)
    ensures var w := Feed(k, init, v, EncodeAll(frames));
      && w.sink == v.sink + Content(k, init, frames)
      && (AtRest(w) <==> forall f <- frames :: ChecksumHolds(k, init, f))
    decreases |frames|
  {
    hide Feed, Encode, ChecksumHolds, Content, Crc;
    if frames == [] {
      NothingFed(k, init, v);
      NoContent(k, init);
      assert v.sink + [] == v.sink;
    } else {
      var f, rest := frames[0], EncodeAll(frames[1..]);
      var w := Feed(k, init, v, Encode(f));
      FrameIsRead(k, init, v, f);
      ContentSplits(k, init, frames);
      FeedAppend(k, init, v, Encode(f), rest);
      assert frames == [f] + frames[1..];
      if ChecksumHolds(k, init, f) {
        FramesAreFed(k, init, w, frames[1..]);
        SinkGrows(v.sink, Content(k, init, [f]), Content(k, init, frames[1..]));
      } else {
        StuckStays(k, init, w, rest);
      }
    }
  }

  lemma NoContent(k: CrcStep, init: uint32)
    ensures Content(k, init, []) == []
  {
  }

  lemma SinkGrows(a: seq<byte>, b: seq<byte>, c: seq<byte>)
    ensures (a + b) + c == a + (b + c)
  {
  }

  lemma ContentSplits(k: CrcStep, init: uint32, frames: seq<SelectFrame>)
    requires frames != []
    ensures Content(k, init, frames) == if ChecksumHolds(k, init, frames[0])
      then Content(k, init, [frames[0]]) + Content(k, init, frames[1..]) else Content(k, init, [frames[0]])
  {
    ContentOfOne(k, init, frames[0]);
  }

  /** With every checksum zero or correct, the content is the data of the data frames and nothing else. */
  lemma {:induction false} GoodContent(k: CrcStep, init: uint32, frames: seq<SelectFrame>)
    requires forall f <- frames :: f.checksum == 0 || f.checksum == Crc(k, init, f.offset + f.data)
    ensures Content(k, init, frames) == Concat(DataOf(frames))
  {
    if frames != [] {
      hide Crc;
      assert frames[0] in frames && forall f <- frames[1..] :: f in frames;
      GoodContent(k, init, frames[1..]);
      assert DataOf(frames)[1..] == DataOf(frames[1..]);
    }
  }

  function DataOf(frames: seq<SelectFrame>): (parts: seq<seq<byte>>)
    ensures |parts| == |frames|
    ensures forall i | 0 <= i < |parts| :: parts[i] == if frames[i].kind == 0x800001 then frames[i].data else []
  {
    if frames == [] then []
    else [if frames[0].kind == 0x800001 then frames[0].data else []] + DataOf(frames[1..])
  }

  // ---------------------------------------------------------------- the stream buffer

  class SelectObjectStreamBuf {
    const crc32: CrcStep
    const initCrc32: uint32
    const header: array<byte>
    const tail: array<byte>
    var headerLen: nat
    var tailLen: nat
    var payloadRemains: int
    var endFrameSize: nat
    var payloadCrc32: uint32
    var lastStatus: int
    var sink: seq<byte>

    ghost predicate Valid()
      reads this, header, tail
    {
      && header.Length == FRAME_HEADER_LEN && tail.Length == 4 && header != tail
      && headerLen <= FRAME_HEADER_LEN && tailLen <= 4
      && Sane(View())
    }

    ghost function View(): Parser
      requires headerLen <= header.Length && tailLen <= tail.Length
      reads this, header, tail
    {
      Parser(header[..headerLen], tail[..tailLen], payloadRemains, payloadCrc32, endFrameSize, sink)
    }

    constructor (crc32: CrcStep, initCrc32: uint32)
      ensures Valid() && AtRest(View()) && sink == [] && lastStatus == 0 && fresh(header) && fresh(tail)
      ensures this.crc32 == crc32 && this.initCrc32 == initCrc32
    {
      this.crc32, this.initCrc32 := crc32, initCrc32;
      header := new byte[FRAME_HEADER_LEN](_ => 0);
      tail := new byte[4](_ => 0);
      headerLen, tailLen, payloadRemains, endFrameSize, payloadCrc32 := 0, 0, 0, 0, 0;
      lastStatus, sink := 0, [];
    }

    /** Copies header bytes; a complete header sets up the payload. */
    method TakeHeader(ptr: seq<byte>) returns (copy: nat)
      requires Valid() && headerLen < FRAME_HEADER_LEN
      modifies `headerLen, `payloadRemains, `payloadCrc32, header
      ensures Valid() && copy == Min(|ptr|, FRAME_HEADER_LEN - old(headerLen))
      ensures View() == WithHeader(crc32, initCrc32, old(View()), old(View()).header + ptr[..copy])
    {
      hide BE, Crc, ToInt32;
      copy := FRAME_HEADER_LEN - headerLen;
      copy := if |ptr| > copy then copy else |ptr|;
      ghost var was := header[..headerLen];
      forall i | 0 <= i < copy {
        header[headerLen + i] := ptr[i];
      }
      headerLen := headerLen + copy;
      assert header[..headerLen] == was + ptr[..copy];
      if headerLen == FRAME_HEADER_LEN {
        var payloadLength: int := BE(header[4..8]);
        payloadRemains := ToInt32((payloadLength - 8) % 0x1_0000_0000);
        payloadCrc32 := Crc(crc32, initCrc32, header[12..20]);
        assert header[4..8] == header[..headerLen][4..8] && header[12..20] == header[..headerLen][12..20];
      }
    }

    /** Takes a run of payload, as much as there is of it. */
    method TakePayload(ptr: seq<byte>) returns (frameType: nat, payload: seq<byte>)
      requires Valid() && payloadRemains > 0
      modifies `payloadRemains, `payloadCrc32
      ensures Valid() && |payload| == Min(old(payloadRemains), |ptr|) && payload == ptr[..|payload|]
      ensures frameType == FrameType(View().header)
      ensures var w := old(View());
        && |payload| <= w.remains
        && View() == w.(remains := w.remains - |payload|, crc := Crc(crc32, w.crc, payload))
    {
      hide Crc, FrameType;
      var copy := if payloadRemains > |ptr| then |ptr| else payloadRemains;
      assert View().header == header[..];
      frameType := FrameType(header[..]);
      payload := ptr[..copy];
      payloadRemains := payloadRemains - copy;
      payloadCrc32 := Crc(crc32, payloadCrc32, payload);
    }

    /** Copies tail bytes, without judging them. */
    method TakeTail(ptr: seq<byte>) returns (copy: nat)
      requires Valid() && headerLen == FRAME_HEADER_LEN && payloadRemains <= 0
      modifies `tailLen, tail
      ensures Valid() && copy == Min(|ptr|, 4 - old(tailLen))
      ensures View() == old(View()).(tail := old(View()).tail + ptr[..copy])
      ensures old(tailLen) < 4 ==> WithTail(View(), View().tail) == Feed(crc32, initCrc32, old(View()), ptr[..copy])
    {
      hide BE, Feed;
      ghost var v := View();
      copy := 4 - tailLen;
      copy := if copy > |ptr| then |ptr| else copy;
      ghost var was := tail[..tailLen];
      forall i | 0 <= i < copy {
        tail[tailLen + i] := ptr[i];
      }
      tailLen := tailLen + copy;
      assert tail[..tailLen] == was + ptr[..copy];
      if |was| < 4 {
        FeedTail(crc32, initCrc32, v, ptr[..copy]);
      }
    }

    /** One call: header bytes first, then a run of payload or some tail bytes. */
    method DepackFrame(ptr: seq<byte>) returns (ret: nat, frameType: nat, payload: seq<byte>, inPayload: bool)
      requires Valid() && ptr != []
      modifies `headerLen, `payloadRemains, `payloadCrc32, `tailLen, header, tail
      ensures Valid() && ret <= |ptr|
      ensures inPayload ==>
        && ret > 0 && |payload| <= ret && payload == ptr[ret - |payload|..ret]
        && headerLen == FRAME_HEADER_LEN && tailLen == 0 && frameType == FrameType(View().header)
        && var w := Feed(crc32, initCrc32, old(View()), ptr[..ret - |payload|]);
           && |w.header| == FRAME_HEADER_LEN && |payload| <= w.remains
           && View() == w.(remains := w.remains - |payload|, crc := Crc(crc32, w.crc, payload))
      ensures !inPayload ==>
        && frameType == 0 && payload == []
        && (ret == 0 <==> Stuck(old(View())))
        && WithTail(View(), View().tail) == (if Stuck(old(View())) then WithTail(old(View()), old(View()).tail)
                                             else Feed(crc32, initCrc32, old(View()), ptr[..ret]))
    {
      hide Feed, Crc, BE, ToInt32, FrameType, WithHeader, WithTail;
      ghost var v := View();
      ret, frameType, payload, inPayload := 0, 0, [], false;
      if headerLen < FRAME_HEADER_LEN {
        ret := TakeHeader(ptr);
        FeedHeader(crc32, initCrc32, v, ptr[..ret]);
      } else {
        NothingFed(crc32, initCrc32, v);
        assert ptr[..0] == [];
      }
      assert View() == Feed(crc32, initCrc32, v, ptr[..ret]);
      ghost var w := View();
      if payloadRemains > 0 {
        frameType, payload := TakePayload(ptr[ret..]);
        PrefixThenSlice(ptr, ret, |payload|);
        ret, inPayload := ret + |payload|, true;
        return;
      }
      if tailLen < 4 && headerLen == FRAME_HEADER_LEN {
        var copy := TakeTail(ptr[ret..]);
        FeedAppend(crc32, initCrc32, v, ptr[..ret], ptr[ret..][..copy]);
        PrefixThenSlice(ptr, ret, copy);
        ret := ret + copy;
      } else if tailLen < 4 {
        TailOpen(w);
      }
    }

    /** What a payload run adds beyond the parser's own counters. */
    method Absorb(frameType: nat, payload: seq<byte>)
      modifies `sink, `endFrameSize
      requires endFrameSize <= END_FRAME_ROOM
      ensures sink == if frameType == 0x800001 then old(sink) + payload else old(sink)
      ensures endFrameSize ==
        if frameType == 0x800005 then Min(256, old(endFrameSize) + |payload|) else old(endFrameSize)
    {
      if frameType == DATA_FRAME {
        sink := sink + payload;
      } else if frameType == END_FRAME {
        var copy := END_FRAME_ROOM - endFrameSize;
        copy := if copy > |payload| then |payload| else copy;
        if copy > 0 {
          endFrameSize := endFrameSize + copy;
        }
      }
    }

    /** The check of a complete tail: refused, or reset for the next frame. */
    method CheckTail() returns (refused: bool)
      requires Valid() && tailLen == 4
      modifies `headerLen, `tailLen, `payloadRemains, `endFrameSize
      ensures Valid() && refused == Stuck(View())
      ensures View() == WithTail(old(View()), old(View()).tail)
    {
      hide BE, FrameType;
      assert tail[..] == tail[..tailLen];
      var checksum := BE(tail[..]);
      refused := checksum != 0 && checksum != payloadCrc32;
      if !refused {
        headerLen, tailLen, payloadRemains, endFrameSize := 0, 0, 0, 0;
      }
    }

    /** One turn of the transfer loop: bytes are consumed, or the checksum was refused and nothing moves. */
    method TransferStep(ptr: seq<byte>) returns (ret: nat, refused: bool)
      requires Valid() && Settled(View()) && ptr != []
      modifies `headerLen, `payloadRemains, `payloadCrc32, `tailLen, `sink, `endFrameSize, header, tail
      ensures Valid() && Settled(View()) && ret <= |ptr| && refused == Stuck(View())
      ensures View() == Feed(crc32, initCrc32, old(View()), ptr[..ret])
      ensures !refused ==> ret > 0
    {
      hide Feed, Crc, FrameType, BE;
      ghost var v := View();
      var frameType, payload, inPayload;
      refused := false;
      ret, frameType, payload, inPayload := DepackFrame(ptr);
      if inPayload {
        ghost var front := ptr[..ret - |payload|];
        ghost var w := Feed(crc32, initCrc32, v, front);
        Absorb(frameType, payload);
        FeedPayload(crc32, initCrc32, w, payload);
        FeedAppend(crc32, initCrc32, v, front, payload);
        assert front + payload == ptr[..ret];
      } else {
        if Stuck(v) {
          StuckStays(crc32, initCrc32, v, ptr[..ret]);
        }
        if tailLen == 4 {
          refused := CheckTail();
        }
      }
    }

    /** Feeds the whole buffer, unless a checksum is refused on the way. */
    method TransferContent(ptr: seq<byte>) returns (failed: bool)
      requires Valid() && Settled(View())
      modifies `headerLen, `payloadRemains, `payloadCrc32, `tailLen, `sink, `endFrameSize, header, tail
      ensures Valid() && Settled(View()) && View() == Feed(crc32, initCrc32, old(View()), ptr)
      ensures failed <==> ptr != [] && Stuck(View())
    {
      hide Feed, Sane, Settled;
      ghost var v := View();
      var at := 0;
      NothingFed(crc32, initCrc32, v);
      assert ptr[..0] == [];
      while at < |ptr|
        invariant at <= |ptr| && Valid() && Settled(View())
        invariant View() == Feed(crc32, initCrc32, v, ptr[..at])
        invariant at > 0 ==> !Stuck(View())
      {
        var ret, refused := TransferStep(ptr[at..]);
        FeedAppend(crc32, initCrc32, v, ptr[..at], ptr[at..][..ret]);
        PrefixThenSlice(ptr, at, ret);
        at := at + ret;
        if refused {
          FeedAppend(crc32, initCrc32, v, ptr[..at], ptr[at..]);
          StuckStays(crc32, initCrc32, View(), ptr[at..]);
          assert ptr[..at] + ptr[at..] == ptr;
          return true;
        }
      }
      assert ptr[..at] == ptr;
      failed := false;
    }

    /** A write: the count is narrowed to 32 bits, so longer buffers are cut or ignored. */
    method Xsputn(ptr: seq<byte>) returns (r: int)
      requires Valid() && Settled(View())
      modifies `headerLen, `payloadRemains, `payloadCrc32, `tailLen, `sink, `endFrameSize, `lastStatus, header, tail
      ensures Valid() && Settled(View())
      ensures View() == Feed(crc32, initCrc32, old(View()), ptr[..Taken(|ptr|)])
      ensures r == if Taken(|ptr|) > 0 && tailLen == 4 then -1 else |ptr|
      ensures lastStatus == if r == -1 then 101061 else old(lastStatus)
    {
      hide Feed, ToInt32, Sane;
      var failed := TransferContent(ptr[..Taken(|ptr|)]);
      if failed {
        lastStatus := ARG_ERROR_SELECT_OBJECT_CHECK_SUM_FAILED;
        return CHECK_SUM_FAILED;
      }
      r := |ptr|;
    }
  }

  /** How many of `count` bytes a write looks at. */
  function Taken(count: nat): (n: nat)
    ensures n <= count
    ensures n == count <==> count < TWO_31
    ensures n == if count % 0x1_0000_0000 < 0x8000_0000 then count % 0x1_0000_0000 else 0
  {
    var n := ToInt32(count);
    if n > 0 then n else 0
  }

  /** Frames written in chunks of any size below 2^31: the sink ends with exactly their content. */
  method WriteFrames(s: SelectObjectStreamBuf, frames: seq<SelectFrame>, chunks: seq<seq<byte>>)
    requires s.Valid() && AtRest(s.View())
    requires (forall f <- frames :: WellFormed(f)) && Concat(chunks) == EncodeAll(frames)
    requires forall c <- chunks :: |c| < TWO_31
    modifies s, s.header, s.tail
    ensures s.Valid() && s.sink == old(s.sink) + Content(s.crc32, s.initCrc32, frames)
    ensures AtRest(s.View()) <==>
      forall f <- frames :: f.checksum == 0 || f.checksum == Crc(s.crc32, s.initCrc32, f.offset + f.data)
    ensures AtRest(s.View()) ==> s.sink == old(s.sink) + Concat(DataOf(frames)) && s.lastStatus == old(s.lastStatus)
  {
    hide Feed, Sane, ToInt32, Taken, Content, ChecksumHolds, DataOf;
    ghost var v := s.View();
    ghost var done := [];
    NothingFed(s.crc32, s.initCrc32, v);
    for i := 0 to |chunks|
      invariant s.Valid() && Settled(s.View()) && done == Concat(chunks[..i])
      invariant s.View() == Feed(s.crc32, s.initCrc32, v, done)
      invariant s.lastStatus == old(s.lastStatus) || Stuck(s.View())
    {
      ghost var before := s.View();
      assert chunks[i] in chunks;
      var r := s.Xsputn(chunks[i]);
      assert chunks[i][..|chunks[i]|] == chunks[i];
      if Stuck(before) {
        StuckStays(s.crc32, s.initCrc32, before, chunks[i]);
      }
      FeedAppend(s.crc32, s.initCrc32, v, done, chunks[i]);
      assert chunks[..i + 1] == chunks[..i] + [chunks[i]];
      ConcatAppend(chunks[..i], [chunks[i]]);
      assert Concat([chunks[i]]) == chunks[i];
      done := done + chunks[i];
    }
    assert chunks[..|chunks|] == chunks;
    FramesAreRead(s.crc32, s.initCrc32, v, frames);
    if AtRest(s.View()) {
      GoodContent(s.crc32, s.initCrc32, frames);
    }
  }

  lemma TailOpen(v: Parser)
    requires |v.tail| < 4
    ensures WithTail(v, v.tail) == v
  {
  }

  lemma NothingFed(k: CrcStep, init: uint32, v: Parser)
    requires Sane(v)
    ensures Feed(k, init, v, []) == v
  {
  }
}
