/**
 * The updater's session: the datagram handler that checks each frame's
 * header and dispatches HELLO, PEEK, BEGIN, DATA and END, and the poll
 * routine that hands control to the new image once END has verified it.
 * The session globals are the fields of a `Bootloader` object that owns
 * the flash controller; a reply is the frame the handler sends back, or
 * nothing when the frame is dropped or the network stack cannot send.
 */
module BootUdp {
  import opened BootProto
  import opened Wrappers
  import opened FlashIf
  import Crc32

  /** Where the application image lives, and how large it may be. */
  const APP_BASE: u32 := 0x0804_0000
  const APP_END: u32 := 0x0810_0000
  const APP_MAX_SIZE: u32 := APP_END - APP_BASE

  /** Largest DATA payload the handler accepts, and largest PEEK reply. */
  const MAX_CHUNK: u32 := 1024
  const PEEK_MAX: u32 := 64

  /** The status codes ERR replies carry in arg1. */
  const ST_BAD_SIZE: u32 := 1
  const ST_UNKNOWN: u32 := 2
  const ST_ERASE_FAILED: u32 := 3
  const ST_BAD_ADDR: u32 := 4
  const ST_BAD_OFFSET: u32 := 5
  const ST_BAD_LENGTH: u32 := 6
  const ST_EXCEEDS_IMAGE: u32 := 7
  const ST_MISSING_PAYLOAD: u32 := 8
  const ST_MISALIGNED: u32 := 9
  const ST_WRITE_FAILED: u32 := 10

  /**
   * What the world outside the handler decides: whether the reply buffer
   * can be allocated, and which sector erase or word program (if any) the
   * flash hardware reports as failed.
   */
  datatype Env = Env(txOk: bool, eraseFailAt: Option<nat>, programFailAt: Option<nat>)

  /** The session globals, g_expected_size .. g_jump_base. */
  datatype Session = Session(expectedSize: u32, expectedCrc: u32, bytesWritten: u32,
                             nextOffset: u32, doJump: bool, jumpBase: u32)

  /** The zero-initialised globals at reset. */
  const RESET: Session := Session(0, 0, 0, 0, false, 0)

  /**
   * The header check: a frame shorter than the header, with the wrong
   * magic or with a header length other than 24 is dropped.
   */
  function Parse(frame: seq<u8>): (r: Option<Header>)
    ensures |frame| < HDR_LEN ==> r.None?
    ensures r.Some? ==> |frame| >= HDR_LEN && EncodeHeader(r.value) == frame[..HDR_LEN]
    ensures r.Some? ==> r.value.magic == BL_MAGIC && r.value.hdrLen == HDR_LEN
  {
    if |frame| < HDR_LEN then None
    else
      var h := DecodeHeader(frame);
      EncodeDecodeHeader(frame);
      if h.magic != BL_MAGIC || h.hdrLen != HDR_LEN then None else Some(h)
  }

  /** Every well-formed header is accepted, whatever follows it. */
  lemma ParseAccepts(h: Header, payload: seq<u8>)
    requires h.magic == BL_MAGIC && h.hdrLen == HDR_LEN
    ensures Parse(EncodeHeader(h) + payload) == Some(h)
  {
    DecodeEncodeHeader(h, payload);
  }

  /** Parse accepts a frame exactly when its first 24 bytes encode a header with the right magic and length. */
  lemma ParseRejects(frame: seq<u8>)
    ensures Parse(frame).None? <==>
              |frame| < HDR_LEN || forall h: Header :: EncodeHeader(h) == frame[..HDR_LEN] ==>
                                                   h.magic != BL_MAGIC || h.hdrLen != HDR_LEN
  {
    if |frame| >= HDR_LEN {
      forall h: Header | EncodeHeader(h) == frame[..HDR_LEN]
        ensures h == DecodeHeader(frame)
      {
        DecodeEncodeHeader(h, frame[HDR_LEN..]);
        assert EncodeHeader(h) + frame[HDR_LEN..] == frame;
      }
      EncodeDecodeHeader(frame);
    }
  }

  /** send_simple: a header-only reply. */
  function Reply(msgType: u8, seqNo: u32, arg0: u32, arg1: u32): Frame
  {
    Frame(Header(BL_MAGIC, msgType, 0, HDR_LEN, seqNo, arg0, arg1, 0), [])
  }

  /** send_payload: a reply whose header announces the payload's length. */
  function ReplyWith(msgType: u8, seqNo: u32, arg0: u32, arg1: u32, payload: seq<u8>): Frame
    requires |payload| < TWO_32
  {
    Frame(Header(BL_MAGIC, msgType, 0, HDR_LEN, seqNo, arg0, arg1, |payload|), payload)
  }

  /** What every reply to `req` looks like on the wire. */
  predicate WellFormedReply(r: Frame, req: Header)
  {
    r.hdr.magic == BL_MAGIC && r.hdr.rsv0 == 0 && r.hdr.hdrLen == HDR_LEN
    && r.hdr.seqNo == req.seqNo && r.hdr.len == |r.payload|
  }

  /** Both reply builders stamp the magic, the header length and the request's sequence number. */
  lemma RepliesWellFormed(req: Header, t: u8, a0: u32, a1: u32, payload: seq<u8>)
    requires |payload| < TWO_32
    ensures WellFormedReply(Reply(t, req.seqNo, a0, a1), req)
    ensures WellFormedReply(ReplyWith(t, req.seqNo, a0, a1, payload), req)
    ensures Reply(t, req.seqNo, a0, a1).hdr.len == 0
    ensures ReplyWith(t, req.seqNo, a0, a1, payload).payload == payload
  {
  }

  /** The PEEK length after clamping. */
  function PeekLen(h: Header): (n: u32)
    ensures n <= PEEK_MAX && (h.arg1 <= PEEK_MAX ==> n == h.arg1)
  {
    if h.arg1 > PEEK_MAX then PEEK_MAX else h.arg1
  }

  /** The PEEK address check, with the sum `a + n` on uint32_t. */
  predicate PeekAllowed(a: u32, n: u32)
  {
    a >= APP_BASE && Add32(a, n) <= APP_BASE + APP_MAX_SIZE
  }

  /** Without wrap-around, an allowed PEEK reads inside the application region only. */
  lemma PeekInsideRegion(a: u32, n: u32)
    requires PeekAllowed(a, n) && a + n < TWO_32
    ensures APP_BASE <= a && a + n <= APP_END
  {
  }

  /**
   * Because `a + n` wraps, an address in the last 64 bytes of the address
   * space passes the check: the reply then carries bytes from 0xFFFFFFF0
   * upward and from address 0, none of them in the application region.
   */
  lemma PeekWrapReadsOutside()
    ensures PeekAllowed(0xFFFF_FFF0, 64)
    ensures forall k :: 0 <= k < 64 ==> !(APP_BASE <= Add32(0xFFFF_FFF0, k) < APP_END)
  {
  }

  /** The DATA checks in the handler's order: the status of the first that fails, or 0. */
  function DataCheck(expectedSize: u32, off: u32, n: u32, frameLen: nat): (status: u32)
    ensures status in {0, ST_BAD_OFFSET, ST_BAD_LENGTH, ST_EXCEEDS_IMAGE, ST_MISSING_PAYLOAD, ST_MISALIGNED}
  {
    if off > expectedSize then ST_BAD_OFFSET
    else if n == 0 || n > MAX_CHUNK then ST_BAD_LENGTH
    else if Add32(off, n) > expectedSize then ST_EXCEEDS_IMAGE
    else if frameLen < HDR_LEN + n then ST_MISSING_PAYLOAD
    else if Add32(APP_BASE, off) % 4 != 0 || n % 4 != 0 then ST_MISALIGNED
    else 0
  }

  /** A DATA frame passes exactly when none of the five conditions holds. */
  lemma DataAccepts(es: u32, off: u32, n: u32, frameLen: nat)
    ensures DataCheck(es, off, n, frameLen) == 0 <==>
              && off <= es && 0 < n <= MAX_CHUNK && Add32(off, n) <= es
              && frameLen >= HDR_LEN + n && Add32(APP_BASE, off) % 4 == 0 && n % 4 == 0
  {
  }

  /**
   * While the announced size fits the application region, an accepted DATA
   * frame writes inside [APP_BASE, APP_BASE + expectedSize) only: no sum
   * wraps and the interval lies within the region.
   */
  lemma DataWritesInsideImage(es: u32, off: u32, n: u32, frameLen: nat)
    requires es <= APP_MAX_SIZE && DataCheck(es, off, n, frameLen) == 0
    ensures Add32(off, n) == off + n && Add32(APP_BASE, off) == APP_BASE + off
    ensures APP_BASE <= APP_BASE + off && APP_BASE + off + n <= APP_BASE + es <= APP_END
  {
  }

  /**
   * A rejected BEGIN has already stored its size: after BEGIN(0xFFFFFFFF)
   * the DATA checks accept offset 0xFFFFFC00 with 1024 bytes, since
   * `off + n` wraps to 0, and the write lands at 0x0803FC00, in the
   * updater's own sector 4.
   */
  lemma OversizedBeginLetsDataEscape()
    ensures DataCheck(0xFFFF_FFFF, 0xFFFF_FC00, 1024, HDR_LEN + 1024) == 0
    ensures Add32(APP_BASE, 0xFFFF_FC00) == 0x0803_FC00
    ensures Sector(0x0803_FC00) == 4 && 0x0803_FC00 < APP_BASE
  {
  }


  /** Erasing the image area touches only bytes of the application region. */
  lemma BeginEraseInsideRegion(size: u32, failAt: Option<nat>, a: int)
    requires 0 < size <= APP_MAX_SIZE
    requires InSectors(a, Sector(APP_BASE), EraseStop(Sector(APP_BASE), SectorCount(APP_BASE, size), failAt))
    ensures APP_BASE <= a < APP_END
  {
    ApplicationEraseSectors(size);
  }

  /** A branch's result: the globals after it and the reply it builds. */
  datatype Outcome = Outcome(next: Session, reply: Frame)

  /** The PEEK branch: a read-back of at most 64 bytes, or ERR 4. */
  function HandlePeek(h: Header, mem: seq<u8>): (r: Frame)
    requires |mem| == TWO_32
    ensures r.hdr.seqNo == h.seqNo && r.hdr.msgType in {BL_PEEK_RESP, BL_ERR} && |r.payload| <= PEEK_MAX
    ensures r.hdr.msgType == BL_PEEK_RESP <==> PeekAllowed(h.arg0, PeekLen(h))
  {
    var a, n := h.arg0, PeekLen(h);
    if PeekAllowed(a, n) then ReplyWith(BL_PEEK_RESP, h.seqNo, a, n, Window(mem, a, n))
    else Reply(BL_ERR, h.seqNo, h.seqNo, ST_BAD_ADDR)
  }

  /** The DATA branch, given the frame's length and the word the hardware fails on. */
  function HandleData(s: Session, h: Header, frameLen: nat, failAt: Option<nat>): (o: Outcome)
    ensures o.reply.hdr.seqNo == h.seqNo && o.reply.payload == [] && o.reply.hdr.msgType in {BL_ACK, BL_ERR}
    ensures o.reply.hdr.msgType == BL_ACK ==>
              DataCheck(s.expectedSize, h.arg0, h.len, frameLen) == 0
              && o.next == s.(bytesWritten := Add32(s.bytesWritten, h.len))
    ensures o.reply.hdr.msgType == BL_ERR ==> o.next == s
  {
    var st := DataCheck(s.expectedSize, h.arg0, h.len, frameLen);
    if st != 0 then Outcome(s, Reply(BL_ERR, h.seqNo, h.seqNo, st))
    else if WriteResult(Add32(APP_BASE, h.arg0), h.len, failAt) != 0 then
      Outcome(s, Reply(BL_ERR, h.seqNo, h.seqNo, ST_WRITE_FAILED))
    else Outcome(s.(bytesWritten := Add32(s.bytesWritten, h.len)), Reply(BL_ACK, h.seqNo, h.seqNo, 0))
  }

  /** The CRC-32 END computes: over the announced number of bytes from APP_BASE. */
  function ImageCrc(s: Session, mem: seq<u8>): u32
    requires |mem| == TWO_32
  {
    Crc32.Value(Crc32.Crc(Window(mem, APP_BASE, s.expectedSize)))
  }

  /** The END branch, given the CRC of the image area. */
  function HandleEnd(s: Session, h: Header, crc: u32): (o: Outcome)
    ensures o.reply.hdr.seqNo == h.seqNo && o.reply.payload == [] && o.reply.hdr.msgType in {BL_OK, BL_ERR}
    ensures o.reply.hdr.msgType == BL_OK <==> s.bytesWritten == s.expectedSize && crc == s.expectedCrc
    ensures o.next == if o.reply.hdr.msgType == BL_OK then s.(doJump := true, jumpBase := APP_BASE) else s
  {
    if s.bytesWritten != s.expectedSize then Outcome(s, Reply(BL_ERR, h.seqNo, s.bytesWritten, s.expectedSize))
    else if crc != s.expectedCrc then Outcome(s, Reply(BL_ERR, h.seqNo, crc, s.expectedCrc))
    else Outcome(s.(doJump := true, jumpBase := APP_BASE), Reply(BL_OK, h.seqNo, h.seqNo, 0))
  }

  /** Whether the erase of `size` bytes from APP_BASE completes, given the sector the hardware fails on. */
  predicate EraseSucceeds(size: u32, failAt: Option<nat>)
  {
    var first, nb := Sector(APP_BASE), SectorCount(APP_BASE, size);
    EraseStop(first, nb, failAt) == first + nb
  }

  /** The BEGIN branch: the globals are stored before the size is checked. */
  function HandleBegin(s: Session, h: Header, failAt: Option<nat>): (o: Outcome)
    ensures o.next == s.(expectedSize := h.arg0, expectedCrc := h.arg1, bytesWritten := 0, nextOffset := 0)
    ensures o.reply.hdr.seqNo == h.seqNo && o.reply.payload == [] && o.reply.hdr.msgType in {BL_ACK, BL_ERR}
  {
    var size := h.arg0;
    var t := s.(expectedSize := size, expectedCrc := h.arg1, bytesWritten := 0, nextOffset := 0);
    if size == 0 || size > APP_MAX_SIZE then Outcome(t, Reply(BL_ERR, h.seqNo, h.seqNo, ST_BAD_SIZE))
    else if !EraseSucceeds(size, failAt) then Outcome(t, Reply(BL_ERR, h.seqNo, h.seqNo, ST_ERASE_FAILED))
    else Outcome(t, Reply(BL_ACK, h.seqNo, h.seqNo, 0))
  }

  /**
   * udp_rx_cb on the session globals: None for a dropped frame, else the
   * globals after the branch for its message type and that branch's reply.
   * `mem` is the flash PEEK reads and `crc` the value END computes over it,
   * ImageCrc(s, mem).
   */
  function Handle(s: Session, frame: seq<u8>, env: Env, mem: seq<u8>, crc: u32): (r: Option<Outcome>)
    requires |mem| == TWO_32
    ensures r.None? <==> Parse(frame).None?
    ensures r.Some? ==> r.value.reply.hdr.seqNo == Parse(frame).value.seqNo
  {
    match Parse(frame)
    case None => None
    case Some(h) =>
      Some(
        if h.msgType == BL_HELLO then Outcome(s, Reply(BL_INFO, h.seqNo, APP_BASE, APP_MAX_SIZE))
        else if h.msgType == BL_PEEK then Outcome(s, HandlePeek(h, mem))
        else if h.msgType == BL_DATA then HandleData(s, h, |frame|, env.programFailAt)
        else if h.msgType == BL_END then HandleEnd(s, h, crc)
        else if h.msgType == BL_BEGIN then HandleBegin(s, h, env.eraseFailAt)
        else Outcome(s, Reply(BL_ERR, h.seqNo, h.seqNo, ST_UNKNOWN)))
  }

  /**
   * What udp_rx_cb does to the flash: an accepted DATA frame programs its
   * payload at APP_BASE + off (up to the failing word), a BEGIN with a
   * valid size erases the sectors holding the image area (up to the
   * failing sector), and every other frame leaves the flash as it was.
   */
  ghost predicate FlashEffect(s: Session, frame: seq<u8>, env: Env, before: seq<u8>, after: seq<u8>)
    requires |before| == TWO_32
  {
    match Parse(frame)
    case None => after == before
    case Some(h) =>
      var dst := Add32(APP_BASE, h.arg0);
      if h.msgType == BL_DATA && DataCheck(s.expectedSize, h.arg0, h.len, |frame|) == 0 then
        Programmed(before, after, dst, frame[HDR_LEN..HDR_LEN + h.len], 4 * WordsWritten(dst, h.len, env.programFailAt))
      else if h.msgType == BL_BEGIN && 0 < h.arg0 <= APP_MAX_SIZE then
        ErasedSectors(before, after, Sector(APP_BASE),
                      EraseStop(Sector(APP_BASE), SectorCount(APP_BASE, h.arg0), env.eraseFailAt))
      else after == before
  }

  /** A datagram shorter than the header is dropped: no reply, no change to the globals or the flash. */
  lemma ShortFrameDropped(s: Session, frame: seq<u8>, env: Env, crc: u32, before: seq<u8>, after: seq<u8>)
    requires |before| == TWO_32 && |frame| < HDR_LEN
    requires FlashEffect(s, frame, env, before, after)
    ensures Handle(s, frame, env, before, crc).None? && after == before
  {
  }

  /** So is a frame whose header has the wrong magic or a header length other than 24. */
  lemma {:induction false} BadHeaderDropped(s: Session, h: Header, payload: seq<u8>, env: Env, crc: u32, before: seq<u8>, after: seq<u8>)
    requires |before| == TWO_32 && (h.magic != BL_MAGIC || h.hdrLen != HDR_LEN)
    requires FlashEffect(s, EncodeHeader(h) + payload, env, before, after)
    ensures Handle(s, EncodeHeader(h) + payload, env, before, crc).None? && after == before
  {
    DecodeEncodeHeader(h, payload);
  }

  /** Every reply carries the magic, the header length 24 and the request's sequence number. */
  lemma RepliesAnswerTheRequest(s: Session, frame: seq<u8>, env: Env, crc: u32, mem: seq<u8>)
    requires |mem| == TWO_32 && Handle(s, frame, env, mem, crc).Some?
    ensures WellFormedReply(Handle(s, frame, env, mem, crc).value.reply, Parse(frame).value)
    ensures Handle(s, frame, env, mem, crc).value.reply.hdr.msgType != BL_PEEK_RESP ==>
              Handle(s, frame, env, mem, crc).value.reply.payload == []
  {
  }

  /**
   * HELLO replies INFO with the application base and maximum size; every
   * code outside HELLO, PEEK, DATA, END and BEGIN (the device's own reply
   * codes among them) replies ERR 2. Neither touches the globals.
   */
  lemma HelloAndUnknown(s: Session, h: Header, payload: seq<u8>, env: Env, crc: u32, mem: seq<u8>)
    requires |mem| == TWO_32 && h.magic == BL_MAGIC && h.hdrLen == HDR_LEN
    ensures var o := Handle(s, EncodeHeader(h) + payload, env, mem, crc);
            && (h.msgType == BL_HELLO ==>
                  o == Some(Outcome(s, Reply(BL_INFO, h.seqNo, 0x0804_0000, 0xC_0000))))
            && (h.msgType !in {BL_HELLO, BL_PEEK, BL_DATA, BL_END, BL_BEGIN} ==>
                  o == Some(Outcome(s, Reply(BL_ERR, h.seqNo, h.seqNo, ST_UNKNOWN))))
  {
    ParseAccepts(h, payload);
  }

  /**
   * PEEK leaves the globals alone and either replies ERR 4 or returns the
   * bytes at arg0, at most 64 of them, with arg0 and the clamped count echoed.
   */
  lemma PeekReads(s: Session, h: Header, payload: seq<u8>, env: Env, crc: u32, mem: seq<u8>)
    requires |mem| == TWO_32 && h.magic == BL_MAGIC && h.hdrLen == HDR_LEN && h.msgType == BL_PEEK
    ensures Handle(s, EncodeHeader(h) + payload, env, mem, crc).Some?
    ensures var o := Handle(s, EncodeHeader(h) + payload, env, mem, crc).value;
            var a, n := h.arg0, if h.arg1 > 64 then 64 else h.arg1;
            && o.next == s
            && (o.reply.hdr.msgType == BL_PEEK_RESP <==> a >= APP_BASE && Add32(a, n) <= APP_END)
            && (o.reply.hdr.msgType == BL_PEEK_RESP ==>
                  && o.reply.hdr.arg0 == a && o.reply.hdr.arg1 == n && |o.reply.payload| == n <= 64
                  && forall k :: 0 <= k < n ==> o.reply.payload[k] == mem[Add32(a, k)])
            && (o.reply.hdr.msgType != BL_PEEK_RESP ==> o.reply == Reply(BL_ERR, h.seqNo, h.seqNo, ST_BAD_ADDR))
  {
    ParseAccepts(h, payload);
  }

  /**
   * BEGIN stores the announced size and CRC and restarts the count whether
   * or not it is accepted; it replies ERR 1 for a size of 0 or above
   * 0xC0000, ERR 3 when the erase fails and ACK otherwise.
   */
  lemma BeginResets(s: Session, h: Header, payload: seq<u8>, env: Env, crc: u32, mem: seq<u8>)
    requires |mem| == TWO_32 && h.magic == BL_MAGIC && h.hdrLen == HDR_LEN && h.msgType == BL_BEGIN
    ensures Handle(s, EncodeHeader(h) + payload, env, mem, crc).Some?
    ensures var o := Handle(s, EncodeHeader(h) + payload, env, mem, crc).value;
            && o.next == s.(expectedSize := h.arg0, expectedCrc := h.arg1, bytesWritten := 0, nextOffset := 0)
            && o.reply.hdr.msgType == (if 0 < h.arg0 <= 0xC_0000 && EraseSucceeds(h.arg0, env.eraseFailAt)
                                       then BL_ACK else BL_ERR)
            && (o.reply.hdr.msgType == BL_ERR ==>
                  o.reply.hdr.arg1 == if 0 < h.arg0 <= 0xC_0000 then ST_ERASE_FAILED else ST_BAD_SIZE)
  {
    ParseAccepts(h, payload);
  }

  /**
   * An END frame goes to the END branch. A short count is reported with
   * the count and the announced size, a CRC mismatch with the computed and
   * the expected CRC, both leaving the globals as they were; only a match
   * of both answers OK and arms the jump to APP_BASE.
   */
  lemma EndOutcomes(s: Session, h: Header, payload: seq<u8>, env: Env, crc: u32, mem: seq<u8>)
    requires |mem| == TWO_32 && h.magic == BL_MAGIC && h.hdrLen == HDR_LEN && h.msgType == BL_END
    ensures Handle(s, EncodeHeader(h) + payload, env, mem, crc) == Some(HandleEnd(s, h, crc))
    ensures var o := Handle(s, EncodeHeader(h) + payload, env, mem, crc);
            && (s.bytesWritten != s.expectedSize ==>
                  o == Some(Outcome(s, Reply(BL_ERR, h.seqNo, s.bytesWritten, s.expectedSize))))
            && (s.bytesWritten == s.expectedSize && crc != s.expectedCrc ==>
                  o == Some(Outcome(s, Reply(BL_ERR, h.seqNo, crc, s.expectedCrc))))
            && (s.bytesWritten == s.expectedSize && crc == s.expectedCrc ==>
                  o == Some(Outcome(s.(doJump := true, jumpBase := APP_BASE), Reply(BL_OK, h.seqNo, h.seqNo, 0))))
  {
    ParseAccepts(h, payload);
  }

  /**
   * A rejected DATA frame changes neither the globals nor the flash, and
   * neither does a failed write change the count; an accepted, written
   * frame adds its length to the count and is acknowledged.
   */
  lemma DataOutcomes(s: Session, h: Header, payload: seq<u8>, env: Env, crc: u32, before: seq<u8>, after: seq<u8>)
    requires |before| == TWO_32 && h.magic == BL_MAGIC && h.hdrLen == HDR_LEN && h.msgType == BL_DATA
    requires FlashEffect(s, EncodeHeader(h) + payload, env, before, after)
    ensures Handle(s, EncodeHeader(h) + payload, env, before, crc).Some?
    ensures var o := Handle(s, EncodeHeader(h) + payload, env, before, crc).value;
            var st := DataCheck(s.expectedSize, h.arg0, h.len, HDR_LEN + |payload|);
            var dst := Add32(APP_BASE, h.arg0);
            && (st != 0 ==> o == Outcome(s, Reply(BL_ERR, h.seqNo, h.seqNo, st)) && after == before)
            && (st == 0 && WriteResult(dst, h.len, env.programFailAt) != 0 ==>
                  o == Outcome(s, Reply(BL_ERR, h.seqNo, h.seqNo, ST_WRITE_FAILED)))
            && (st == 0 && WriteResult(dst, h.len, env.programFailAt) == 0 ==>
                  && o.next == s.(bytesWritten := Add32(s.bytesWritten, h.len))
                  && o.reply == Reply(BL_ACK, h.seqNo, h.seqNo, 0)
                  && Programmed(before, after, dst, payload[..h.len], h.len))
  {
    ParseAccepts(h, payload);
    var frame := EncodeHeader(h) + payload;
    if DataCheck(s.expectedSize, h.arg0, h.len, |frame|) == 0 {
      assert frame[HDR_LEN..HDR_LEN + h.len] == payload[..h.len];
      WriteOutcome(Add32(APP_BASE, h.arg0), h.len, env.programFailAt);
    }
  }

  /** The announced size fits the application region at reset. */
  lemma ResetInImageBounds()
    ensures RESET.expectedSize <= APP_MAX_SIZE && RESET.bytesWritten == 0 && !RESET.doJump
  {
  }

  /**
   * Every frame keeps the announced size within the application region,
   * except a BEGIN whose size is rejected: it has stored that size before
   * checking it.
   */
  lemma ImageBoundKept(s: Session, frame: seq<u8>, env: Env, crc: u32, mem: seq<u8>)
    requires |mem| == TWO_32 && s.expectedSize <= APP_MAX_SIZE && Handle(s, frame, env, mem, crc).Some?
    ensures var h := Parse(frame).value;
            Handle(s, frame, env, mem, crc).value.next.expectedSize <= APP_MAX_SIZE
            || (h.msgType == BL_BEGIN && h.arg0 > APP_MAX_SIZE
                && Handle(s, frame, env, mem, crc).value.reply == Reply(BL_ERR, h.seqNo, h.seqNo, ST_BAD_SIZE))
  {
  }

  /**
   * While the announced size fits the application region, no frame changes
   * a flash byte outside [0x08040000, 0x08100000): the updater's sectors
   * 0..4 and bank 2 are never erased or programmed.
   */
  lemma UpdaterNeverTouched(s: Session, frame: seq<u8>, env: Env, before: seq<u8>, after: seq<u8>, a: int)
    requires |before| == TWO_32 && s.expectedSize <= APP_MAX_SIZE
    requires FlashEffect(s, frame, env, before, after)
    requires 0 <= a < TWO_32 && !(APP_BASE <= a < APP_END)
    ensures after[a] == before[a]
  {
    if Parse(frame).Some? {
      var h := Parse(frame).value;
      if h.msgType == BL_DATA && DataCheck(s.expectedSize, h.arg0, h.len, |frame|) == 0 {
        DataWritesInsideImage(s.expectedSize, h.arg0, h.len, |frame|);
        assert Offset(a, Add32(APP_BASE, h.arg0)) >= h.len;
      } else if h.msgType == BL_BEGIN && 0 < h.arg0 <= APP_MAX_SIZE {
        if InSectors(a, Sector(APP_BASE), EraseStop(Sector(APP_BASE), SectorCount(APP_BASE, h.arg0), env.eraseFailAt)) {
          BeginEraseInsideRegion(h.arg0, env.eraseFailAt, a);
        }
      }
    }
  }

  /**
   * The jump is armed only by an END whose byte count matches the
   * announced size and whose CRC over the image area matches the announced
   * CRC, and always at APP_BASE; such an END always arms it and replies OK.
   */
  lemma JumpArmedOnlyByVerifiedEnd(s: Session, frame: seq<u8>, env: Env, crc: u32, mem: seq<u8>)
    requires |mem| == TWO_32 && Handle(s, frame, env, mem, crc).Some?
    ensures var h, o := Parse(frame).value, Handle(s, frame, env, mem, crc).value;
            var verified := h.msgType == BL_END && s.bytesWritten == s.expectedSize
                            && crc == s.expectedCrc;
            && (!s.doJump && o.next.doJump ==> verified)
            && (o.reply.hdr.msgType == BL_OK <==> verified)
            && (verified ==> o == Outcome(s.(doJump := true, jumpBase := APP_BASE), Reply(BL_OK, h.seqNo, h.seqNo, 0)))
            && (o.next.jumpBase != s.jumpBase ==> o.next.jumpBase == APP_BASE)
  {
  }

  /**
   * From the zeroed globals, a bare END succeeds: no byte is announced and
   * none written, and the CRC-32 of no bytes is the zero the CRC global
   * starts with.
   */
  lemma LoneEndAtReset(h: Header, env: Env, mem: seq<u8>)
    requires |mem| == TWO_32 && h.magic == BL_MAGIC && h.hdrLen == HDR_LEN && h.msgType == BL_END
    ensures Handle(RESET, EncodeHeader(h), env, mem, ImageCrc(RESET, mem))
            == Some(Outcome(RESET.(doJump := true, jumpBase := APP_BASE), Reply(BL_OK, h.seqNo, h.seqNo, 0)))
  {
    ParseAccepts(h, []);
    assert EncodeHeader(h) + [] == EncodeHeader(h);
    assert Window(mem, APP_BASE, 0) == [];
    Crc32.CrcOfEmpty(0);
  }

  /**
   * END compares a byte count, not coverage: DATA never compares its offset
   * with the count, so after BEGIN(8) the same 4-byte chunk at offset 0
   * sent twice brings the count to 8 and END goes on to the CRC with bytes
   * 4..7 never written: the two writes, m0 to m1 and m1 to m2, both store
   * the chunk at APP_BASE and leave APP_BASE + 4 .. APP_BASE + 8 as before.
   */
  lemma CountIsNotCoverage(h: Header, crc: u32, c: seq<u8>, m0: seq<u8>, m1: seq<u8>, m2: seq<u8>)
    requires h.arg0 == 0 && h.len == 4 && |c| == 4
    requires Programmed(m0, m1, APP_BASE, c, 4 * WordsWritten(APP_BASE, 4, None))
    requires Programmed(m1, m2, APP_BASE, c, 4 * WordsWritten(APP_BASE, 4, None))
    ensures var s0 := Session(8, crc, 0, 0, false, 0);
            var s1 := HandleData(s0, h, HDR_LEN + 4, None).next;
            var s2 := HandleData(s1, h, HDR_LEN + 4, None).next;
            s1.bytesWritten == 4 && s2.bytesWritten == 8 == s2.expectedSize
    ensures m2[APP_BASE..APP_BASE + 4] == c
    ensures m2[APP_BASE + 4..APP_BASE + 8] == m0[APP_BASE + 4..APP_BASE + 8]
  {
    assert WordsWritten(APP_BASE, 4, None) == 1;
    forall a | APP_BASE <= a < APP_BASE + 4
      ensures m2[a] == c[a - APP_BASE]
    {
      assert Offset(a, APP_BASE) == a - APP_BASE;
    }
    forall a | APP_BASE + 4 <= a < APP_BASE + 8
      ensures m2[a] == m0[a]
    {
      assert Offset(a, APP_BASE) >= 4;
    }
  }

  class Bootloader {
    var expectedSize: u32
    var expectedCrc: u32
    var bytesWritten: u32
    /** Assigned by BEGIN and never read. */
    var nextOffset: u32
    /** g_do_jump, which only ever holds 0 or 1. */
    var doJump: bool
    var jumpBase: u32
    /** The addresses boot_jump_to_app has been called with, in order. */
    ghost var jumps: seq<u32>
    const flash: Flash

    ghost predicate Valid()
      reads this, flash
    {
      flash.Valid() && flash.locked
    }

    function Globals(): Session
      reads this
    {
      Session(expectedSize, expectedCrc, bytesWritten, nextOffset, doJump, jumpBase)
    }

    /** Reset: zeroed globals, over a locked flash. */
    constructor (flash: Flash)
      requires flash.Valid() && flash.locked
      ensures Valid() && this.flash == flash && Globals() == RESET && jumps == []
    {
      expectedSize, expectedCrc, bytesWritten, nextOffset := 0, 0, 0, 0;
      doJump, jumpBase := false, 0;
      jumps := [];
      this.flash := flash;
    }

    /** The PEEK branch. */
    method Peek(h: Header) returns (reply: Frame)
      requires Valid()
      ensures reply == HandlePeek(h, flash.mem[..])
    {
      var a := h.arg0;
      var n := h.arg1;
      if n > PEEK_MAX {
        n := PEEK_MAX;
      }
      if a < APP_BASE || Add32(a, n) > APP_BASE + APP_MAX_SIZE {
        return Reply(BL_ERR, h.seqNo, h.seqNo, ST_BAD_ADDR);
      }
      reply := ReplyWith(BL_PEEK_RESP, h.seqNo, a, n, Window(flash.mem[..], a, n));
    }

    /** The DATA branch: the five checks, then the payload copied out and handed to flash_write. */
    method Data(h: Header, frame: seq<u8>, failAt: Option<nat>) returns (reply: Frame)
      requires Valid() && |frame| >= HDR_LEN
      modifies this, flash, flash.mem
      ensures Valid() && jumps == old(jumps)
      ensures Outcome(Globals(), reply) == HandleData(old(Globals()), h, |frame|, failAt)
      ensures var dst := Add32(APP_BASE, h.arg0);
              if DataCheck(old(expectedSize), h.arg0, h.len, |frame|) == 0 then
                Programmed(old(flash.mem[..]), flash.mem[..], dst, frame[HDR_LEN..HDR_LEN + h.len],
                           4 * WordsWritten(dst, h.len, failAt))
              else flash.mem[..] == old(flash.mem[..])
    {
      var off := h.arg0;
      var n := h.len;
      var dst := Add32(APP_BASE, off);
      if off > expectedSize {
        return Reply(BL_ERR, h.seqNo, h.seqNo, ST_BAD_OFFSET);
      }
      if n == 0 || n > MAX_CHUNK {
        return Reply(BL_ERR, h.seqNo, h.seqNo, ST_BAD_LENGTH);
      }
      if Add32(off, n) > expectedSize {
        return Reply(BL_ERR, h.seqNo, h.seqNo, ST_EXCEEDS_IMAGE);
      }
      if |frame| < HDR_LEN + n {
        return Reply(BL_ERR, h.seqNo, h.seqNo, ST_MISSING_PAYLOAD);
      }
      if dst % 4 != 0 || n % 4 != 0 {
        return Reply(BL_ERR, h.seqNo, h.seqNo, ST_MISALIGNED);
      }
      var buf := frame[HDR_LEN..HDR_LEN + n];
      var st := flash.Write(dst, buf, n, failAt);
      if st != 0 {
        return Reply(BL_ERR, h.seqNo, h.seqNo, ST_WRITE_FAILED);
      }
      bytesWritten := Add32(bytesWritten, n);
      reply := Reply(BL_ACK, h.seqNo, h.seqNo, 0);
    }

    /** The END branch: the byte count, then the CRC of the image area, then arm the jump. */
    method End(h: Header) returns (reply: Frame)
      requires Valid()
      modifies this
      ensures Valid() && jumps == old(jumps)
      ensures Outcome(Globals(), reply) == HandleEnd(old(Globals()), h, ImageCrc(old(Globals()), flash.mem[..]))
    {
      if bytesWritten != expectedSize {
        return Reply(BL_ERR, h.seqNo, bytesWritten, expectedSize);
      }
      var reg := Crc32.Crc32Zlib(Window(flash.mem[..], APP_BASE, expectedSize));
      var crc := Crc32.Value(reg);
      if crc != expectedCrc {
        return Reply(BL_ERR, h.seqNo, crc, expectedCrc);
      }
      reply := Reply(BL_OK, h.seqNo, h.seqNo, 0);
      jumpBase := APP_BASE;
      doJump := true;
    }

    /** The BEGIN branch: store the announced size and CRC, then check the size and erase. */
    method Begin(h: Header, failAt: Option<nat>) returns (reply: Frame)
      requires Valid()
      modifies this, flash, flash.mem
      ensures Valid() && jumps == old(jumps)
      ensures Outcome(Globals(), reply) == HandleBegin(old(Globals()), h, failAt)
      ensures if 0 < h.arg0 <= APP_MAX_SIZE then
                ErasedSectors(old(flash.mem[..]), flash.mem[..], Sector(APP_BASE),
                              EraseStop(Sector(APP_BASE), SectorCount(APP_BASE, h.arg0), failAt))
              else flash.mem[..] == old(flash.mem[..])
    {
      expectedSize := h.arg0;
      expectedCrc := h.arg1;
      bytesWritten := 0;
      nextOffset := 0;
      if expectedSize == 0 || expectedSize > APP_MAX_SIZE {
        return Reply(BL_ERR, h.seqNo, h.seqNo, ST_BAD_SIZE);
      }
      ApplicationEraseSectors(expectedSize);
      var st := flash.EraseRange(APP_BASE, expectedSize, failAt);
      if st != 0 {
        reply := Reply(BL_ERR, h.seqNo, h.seqNo, ST_ERASE_FAILED);
      } else {
        reply := Reply(BL_ACK, h.seqNo, h.seqNo, 0);
      }
    }

    /**
     * udp_rx_cb: drop a malformed frame without a trace, else run the
     * branch for its message type and send that branch's one reply.
     */
    method Receive(frame: seq<u8>, env: Env) returns (resp: Option<Frame>)
      requires Valid()
      modifies this, flash, flash.mem
      ensures Valid() && jumps == old(jumps)
      ensures match Handle(old(Globals()), frame, env, old(flash.mem[..]), ImageCrc(old(Globals()), old(flash.mem[..])))
              case None => Globals() == old(Globals()) && resp.None?
              case Some(o) => Globals() == o.next && resp == Sent(env, o.reply)
      ensures FlashEffect(old(Globals()), frame, env, old(flash.mem[..]), flash.mem[..])
    {
      var parsed := Parse(frame);
      if parsed.None? {
        return None;
      }
      var h := parsed.value;
      var reply: Frame;
      if h.msgType == BL_HELLO {
        reply := Reply(BL_INFO, h.seqNo, APP_BASE, APP_MAX_SIZE);
      } else if h.msgType == BL_PEEK {
        reply := Peek(h);
      } else if h.msgType == BL_DATA {
        reply := Data(h, frame, env.programFailAt);
      } else if h.msgType == BL_END {
        reply := End(h);
      } else if h.msgType == BL_BEGIN {
        reply := Begin(h, env.eraseFailAt);
      } else {
        reply := Reply(BL_ERR, h.seqNo, h.seqNo, ST_UNKNOWN);
      }
      resp := Sent(env, reply);
    }

    /** boot_jump_to_app, reduced to the event of jumping to `base`; the flag is already clear. */
    method JumpToApp(base: u32)
      requires !doJump
      modifies this`jumps
      ensures jumps == old(jumps) + [base]
    {
      jumps := jumps + [base];
    }

    /** boot_udp_poll: nothing unless armed; otherwise disarm, then jump. */
    method Poll()
      requires Valid()
      modifies this`doJump, this`jumps
      ensures Valid()
      ensures !old(doJump) ==> Globals() == old(Globals()) && jumps == old(jumps)
      ensures old(doJump) ==> Globals() == old(Globals()).(doJump := false) && jumps == old(jumps) + [jumpBase]
    {
      if !doJump {
        return;
      }
      doJump := false;
      JumpToApp(jumpBase);
    }
  }

  /** The reply goes out only when the network stack can allocate it. */
  function Sent(env: Env, reply: Frame): (r: Option<Frame>)
    ensures r.Some? <==> env.txOk
    ensures r.Some? ==> r.value == reply
  {
    if env.txOk then Some(reply) else None
  }
}
