/** The touch-controller line discipline: a four-state decoder driven by the
    receive callback, a power-of-two circular read buffer that each parsed
    packet is appended to, and the decisions to wake a waiting reader and
    to throttle the serial driver.

    The receive callback leaves seven regions as `/* ... */`. The three
    inside the STREAM_DATA, PARSING and PARSED cases (ld_touchpad.c lines
    63, 66 and 70) are the fields of a `Datasheet` value, and every
    statement below holds whatever they do. The other four are taken to be
    empty: the pre-switch work on the received bytes (line 47), the rest
    of the RESET case (line 60), and the code after the copy (line 85) and
    after the throttle test (line 96). */
module TouchLd {
  import opened Bits

  const ENOMEM := 12

  /** Build-time constants the driver uses without defining them: the
      packet size, the read-buffer size (a power of two, `2^bufferShift`),
      the throttle threshold and the bytes of the stream-mode command. */
  datatype Config = Config(
    packetSize: nat,
    bufferShift: nat,
    throttleThreshold: int,
    modeStreamCommand: seq<Byte>)
  {
    function BufferSize(): (n: nat)
      ensures n >= 1
    {
      Pow2(bufferShift)
    }
  }

  datatype DecoderState = Reset | StreamData | Parsing | Parsed

  /** The state an all-zero private structure is in: the first enumerator,
      RESET. */
  const ZERO_STATE := Reset

  /** The decoder's part of the private data: the protocol state and the
      packet being collected. */
  datatype Decoder = Decoder(state: DecoderState, currentPkt: seq<Byte>)

  /** The circular read buffer: its bytes, the next slot to write and the
      number of bytes written that readers have not yet consumed. */
  datatype Ring = Ring(readBuf: seq<Byte>, readHead: int, readCnt: int)

  /** The line discipline's per-tty state. */
  datatype Touch = Touch(decoder: Decoder, ring: Ring)

  /** The effect of the datasheet-dependent code regions of the receive
      callback on the decoder, given the bytes received: the STREAM_DATA
      case, the PARSING case before it moves to PARSED, and the PARSED
      case. */
  datatype Datasheet = Datasheet(
    streamData: (Decoder, seq<Byte>) -> Decoder,
    parsing: (Decoder, seq<Byte>) -> Decoder,
    parsed: (Decoder, seq<Byte>) -> Decoder)

  /** What the receive callback asks of the outside world: the command
      writes issued to the tty driver, whether waiting readers are woken,
      and whether the driver is asked to throttle. */
  datatype Effects = Effects(writes: seq<seq<Byte>>, wake: bool, throttle: bool)

  /** The decoder after the state switch, with the writes it issued. */
  datatype Switched = Switched(decoder: Decoder, writes: seq<seq<Byte>>)

  datatype OpenResult =
    | Opened(t: Touch)
    | OpenFailed(errno: int, discDataAttached: bool)
  {
    /** The value `open` returns. */
    function ReturnCode(): int
    {
      if Opened? then 0 else errno
    }
  }

  predicate ValidRing(cfg: Config, ring: Ring)
  {
    && |ring.readBuf| == cfg.BufferSize()
    && 0 <= ring.readHead < cfg.BufferSize()
  }

  predicate Valid(cfg: Config, t: Touch)
  {
    |t.decoder.currentPkt| == cfg.packetSize && ValidRing(cfg, t.ring)
  }

  /** The datasheet regions keep the collected packet at its fixed size. */
  ghost predicate KeepsPacketSize(cfg: Config, ds: Datasheet)
  {
    forall d: Decoder, cp: seq<Byte> | |d.currentPkt| == cfg.packetSize ::
      && |ds.streamData(d, cp).currentPkt| == cfg.packetSize
      && |ds.parsing(d, cp).currentPkt| == cfg.packetSize
      && |ds.parsed(d, cp).currentPkt| == cfg.packetSize
  }

  /** Starting from an empty buffer at slot 0, the write slot is always the
      count of bytes written, reduced modulo the buffer size. */
  predicate HeadTracksCount(cfg: Config, ring: Ring)
  {
    ring.readCnt >= 0 && ring.readHead == ring.readCnt % cfg.BufferSize()
  }

  /** `ring'` is `ring` with `pkt` appended at the write slot: the write slot
      and the count move on by the packet size, the last (up to buffer
      size) packet bytes sit in consecutive slots from the old write slot
      on, and slots the packet does not reach keep their bytes. */
  ghost predicate Appended(cfg: Config, ring: Ring, pkt: seq<Byte>, ring': Ring)
    requires ValidRing(cfg, ring) && ValidRing(cfg, ring') && |pkt| == cfg.packetSize
  {
    var n := cfg.BufferSize();
    var p := cfg.packetSize;
    && ring'.readHead == (ring.readHead + p) % n
    && ring'.readCnt == ring.readCnt + p
    && (forall i | 0 <= i < p && p - n <= i :: ring'.readBuf[(ring.readHead + i) % n] == pkt[i])
    && (forall j | 0 <= j < n && (j - ring.readHead) % n >= p :: ring'.readBuf[j] == ring.readBuf[j])
  }

  /** `Appended` leaves no slot open: two buffers that both result from
      appending the same packet to the same ring are identical. */
  lemma AppendedDeterminesBuffer(cfg: Config, ring: Ring, pkt: seq<Byte>, r1: Ring, r2: Ring)
    requires ValidRing(cfg, ring) && ValidRing(cfg, r1) && ValidRing(cfg, r2)
    requires |pkt| == cfg.packetSize
    requires Appended(cfg, ring, pkt, r1) && Appended(cfg, ring, pkt, r2)
    ensures r1 == r2
  {
    var n := cfg.BufferSize();
    var p := cfg.packetSize;
    var h := ring.readHead;
    forall j | 0 <= j < n
      ensures r1.readBuf[j] == r2.readBuf[j]
    {
      if (j - h) % n < p {
        var lo := if p <= n then 0 else p - n;
        var i := SlotReached(h, j, n, lo);
        if p <= n {
          SlotOffset(h, i, n);
          ModUnique(i, n, 0, i);
        }
        assert r1.readBuf[(h + i) % n] == pkt[i] == r2.readBuf[(h + i) % n];
      }
    }
    assert r1.readBuf == r2.readBuf;
  }

  /** The state switch of the receive callback. RESET commands the
      controller into stream mode and moves to STREAM_DATA; PARSING moves
      to PARSED; every other change is the datasheet's. */
  function Dispatch(cfg: Config, ds: Datasheet, d: Decoder, cp: seq<Byte>): (r: Switched)
    ensures d.state == Reset ==>
      r.decoder == d.(state := StreamData) && r.writes == [cfg.modeStreamCommand]
    ensures d.state == Parsing ==> r.decoder.state == Parsed
    ensures d.state != Reset ==> r.writes == []
    ensures KeepsPacketSize(cfg, ds) && |d.currentPkt| == cfg.packetSize ==>
      |r.decoder.currentPkt| == cfg.packetSize
  {
    match d.state
    case Reset => Switched(d.(state := StreamData), [cfg.modeStreamCommand])
    case StreamData => Switched(ds.streamData(d, cp), [])
    case Parsing => Switched(ds.parsing(d, cp).(state := Parsed), [])
    case Parsed => Switched(ds.parsed(d, cp), [])
  }

  /** The three datasheet regions left empty: together with the four
      regions the model always takes to be empty, the code as shown. */
  function AsShown(): Datasheet
  {
    Datasheet((d, cp) => d, (d, cp) => d, (d, cp) => d)
  }

  /** The state a step of the code as shown leads to. */
  function ShownNext(s: DecoderState): DecoderState
  {
    match s
    case Reset => StreamData
    case StreamData => StreamData
    case Parsing => Parsed
    case Parsed => Parsed
  }

  /** With the datasheet regions empty, the switch follows `ShownNext`,
      keeps the collected packet, and writes to the driver only from RESET,
      exactly once. */
  lemma ShownTransitions(cfg: Config, d: Decoder, cp: seq<Byte>)
    ensures Dispatch(cfg, AsShown(), d, cp).decoder == d.(state := ShownNext(d.state))
    ensures |Dispatch(cfg, AsShown(), d, cp).writes| == (if d.state == Reset then 1 else 0)
  {
  }

  /** Reference for the packet copy: write the packet's bytes one after
      another into consecutive slots from `h`, wrapping at the end of the
      buffer. */
  function WriteFrom(buf: seq<Byte>, h: nat, pkt: seq<Byte>): (r: seq<Byte>)
    requires h < |buf|
    ensures |r| == |buf|
    decreases |pkt|
  {
    if |pkt| == 0 then buf
    else WriteFrom(buf[h := pkt[0]], (h + 1) % |buf|, pkt[1..])
  }

  /** After `i` bytes of `pkt` have been copied into `buf` (originally
      `buf0`) from slot `h` on: the last (up to `n`) of them sit in
      consecutive slots from `h`, and slots not yet reached are untouched. */
  ghost predicate CopiedPrefix(n: nat, h: int, buf0: seq<Byte>, pkt: seq<Byte>, buf: seq<Byte>, i: nat)
    requires n >= 1 && |buf0| == |buf| == n && i <= |pkt|
  {
    && (forall k | 0 <= k < i && i - n <= k :: buf[(h + k) % n] == pkt[k])
    && (forall j | 0 <= j < n && (j - h) % n >= i :: buf[j] == buf0[j])
  }

  /** Copying byte `i` into the slot `i` steps after `h` extends the copied
      prefix by one. */
  lemma CopyStep(n: nat, h: int, buf0: seq<Byte>, pkt: seq<Byte>, buf: seq<Byte>, i: nat)
    requires n >= 1 && |buf0| == |buf| == n && i < |pkt|
    requires CopiedPrefix(n, h, buf0, pkt, buf, i)
    ensures CopiedPrefix(n, h, buf0, pkt, buf[(h + i) % n := pkt[i]], i + 1)
  {
    var slot := (h + i) % n;
    var buf' := buf[slot := pkt[i]];
    forall k | 0 <= k < i + 1 && i + 1 - n <= k
      ensures buf'[(h + k) % n] == pkt[k]
    {
      if k < i {
        SlotsDistinct(h, k, i, n);
      }
    }
    SlotOffset(h, i, n);
    if i < n {
      ModUnique(i, n, 0, i);
    }
    forall j | 0 <= j < n && (j - h) % n >= i + 1
      ensures buf'[j] == buf0[j]
    {
    }
  }

  /** One step of the reference: the first remaining byte goes to the
      current slot, the rest from the next slot on. */
  lemma WriteFromStep(buf: seq<Byte>, slot: nat, pkt: seq<Byte>, i: nat)
    requires slot < |buf| && i < |pkt|
    ensures WriteFrom(buf, slot, pkt[i..])
         == WriteFrom(buf[slot := pkt[i]], (slot + 1) % |buf|, pkt[i + 1..])
  {
    assert pkt[i..][0] == pkt[i] && pkt[i..][1..] == pkt[i + 1..];
  }

  /** The state of the packet copy after `i` bytes: the write index has
      stepped `i` slots on from where it started, `i` bytes were counted, the
      copied prefix is in place, and finishing the remaining bytes with the
      reference gives what the reference gives for the whole packet. */
  ghost predicate CopyState(cfg: Config, ring: Ring, pkt: seq<Byte>, r: Ring, i: nat)
    requires ValidRing(cfg, ring) && |pkt| == cfg.packetSize
  {
    && i <= |pkt|
    && ValidRing(cfg, r)
    && r.readHead == (ring.readHead + i) % cfg.BufferSize()
    && r.readCnt == ring.readCnt + i
    && CopiedPrefix(cfg.BufferSize(), ring.readHead, ring.readBuf, pkt, r.readBuf, i)
    && WriteFrom(r.readBuf, r.readHead, pkt[i..]) == WriteFrom(ring.readBuf, ring.readHead, pkt)
  }

  /** Masking with `BUFFER_SIZE - 1` reduces modulo the buffer size. */
  lemma MaskWraps(cfg: Config, x: nat)
    ensures And(x, cfg.BufferSize() - 1) == x % cfg.BufferSize()
  {
    MaskIsMod(x, cfg.bufferShift);
  }

  /** The masked increment of the write index moves it one slot on, modulo
      the buffer size. */
  lemma HeadAdvance(cfg: Config, h: int, i: nat, head: int)
    requires head == (h + i) % cfg.BufferSize()
    ensures And(head + 1, cfg.BufferSize() - 1) == (head + 1) % cfg.BufferSize()
    ensures And(head + 1, cfg.BufferSize() - 1) == (h + (i + 1)) % cfg.BufferSize()
  {
    MaskWraps(cfg, head + 1);
    ModSucc(h + i, cfg.BufferSize());
  }

  /** One iteration of the copy loop keeps `CopyState`, with the index
      stepped under the power-of-two mask. */
  lemma CopyAdvance(cfg: Config, ring: Ring, pkt: seq<Byte>, r: Ring, i: nat)
    requires ValidRing(cfg, ring) && |pkt| == cfg.packetSize
    requires CopyState(cfg, ring, pkt, r, i) && i < |pkt|
    ensures CopyState(cfg, ring, pkt,
      Ring(r.readBuf[r.readHead := pkt[i]], And(r.readHead + 1, cfg.BufferSize() - 1), r.readCnt + 1),
      i + 1)
  {
    var n := cfg.BufferSize();
    var h := ring.readHead;
    HeadAdvance(cfg, h, i, r.readHead);
    CopyStep(n, h, ring.readBuf, pkt, r.readBuf, i);
    WriteFromStep(r.readBuf, r.readHead, pkt, i);
  }

  /** The packet-copy loop: byte by byte into the slot at the write index,
      which then steps on under the power-of-two mask, counting each byte. */
  method CopyPacket(cfg: Config, ring: Ring, pkt: seq<Byte>) returns (ring': Ring)
    requires ValidRing(cfg, ring) && |pkt| == cfg.packetSize
    ensures ValidRing(cfg, ring')
    ensures Appended(cfg, ring, pkt, ring')
    ensures ring'.readBuf == WriteFrom(ring.readBuf, ring.readHead, pkt)
  {
    var n := cfg.BufferSize();
    ring' := ring;
    var i := 0;
    ModUnique(ring.readHead, n, 0, ring.readHead);
    assert pkt[i..] == pkt;
    while i < cfg.packetSize
      invariant CopyState(cfg, ring, pkt, ring', i)
    {
      CopyAdvance(cfg, ring, pkt, ring', i);
      var slot := ring'.readHead;
      ring' := Ring(ring'.readBuf[slot := pkt[i]], And(slot + 1, n - 1), ring'.readCnt + 1);
      i := i + 1;
    }
    assert pkt[i..] == [];
  }

  /** `n_touch_receive_buf`. `readerWaiting` says whether a reader sleeps on
      the read wait queue, `minimumToWait` is the tty's wake-up threshold,
      and `receiveRoom` stands for the line discipline's receive-room
      query, which the driver does not give. */
  method ReceiveBuf(
    cfg: Config, ds: Datasheet, t: Touch, cp: seq<Byte>,
    readerWaiting: bool, minimumToWait: int, receiveRoom: Touch -> int)
    returns (t': Touch, fx: Effects)
    requires Valid(cfg, t) && KeepsPacketSize(cfg, ds)
    ensures Valid(cfg, t')
    ensures t'.decoder == Dispatch(cfg, ds, t.decoder, cp).decoder
    ensures fx.writes == Dispatch(cfg, ds, t.decoder, cp).writes
    ensures t'.decoder.state != Parsed ==> t'.ring == t.ring && !fx.wake && !fx.throttle
    ensures t'.decoder.state == Parsed ==> Appended(cfg, t.ring, t'.decoder.currentPkt, t'.ring)
    ensures t'.decoder.state == Parsed ==>
      (fx.wake <==> readerWaiting && t'.ring.readCnt >= minimumToWait)
    ensures t'.decoder.state == Parsed ==>
      (fx.throttle <==> receiveRoom(t') < cfg.throttleThreshold)
    ensures HeadTracksCount(cfg, t.ring) ==> HeadTracksCount(cfg, t'.ring)
  {
    var sw := Dispatch(cfg, ds, t.decoder, cp);
    t' := t.(decoder := sw.decoder);
    fx := Effects(sw.writes, false, false);
    if t'.decoder.state == Parsed {
      var ring' := CopyPacket(cfg, t.ring, t'.decoder.currentPkt);
      t' := t'.(ring := ring');
      var wake := readerWaiting && t'.ring.readCnt >= minimumToWait;
      var throttle := receiveRoom(t') < cfg.throttleThreshold;
      fx := fx.(wake := wake, throttle := throttle);
      if HeadTracksCount(cfg, t.ring) {
        ModAddMod(t.ring.readCnt, cfg.packetSize, cfg.BufferSize());
      }
    }
  }

  /** `n_touch_open`. The two flags say whether the allocation of the
      private structure and of the read buffer succeed. A failure returns
      -ENOMEM; when it is the read buffer that fails, the private structure
      has already been attached to the tty. On success the private state
      is all zero and the read buffer is zero-filled. The decoder packet,
      write index and count are taken to live in the elided part of the
      private structure, so the `memset` of it zeroes them, and the buffer
      the copy writes is taken to be the one `open` allocates and clears. */
  function Open(cfg: Config, privateAllocated: bool, readBufAllocated: bool): (r: OpenResult)
    ensures r.Opened? <==> privateAllocated && readBufAllocated
    ensures r.ReturnCode() == (if r.Opened? then 0 else -ENOMEM)
    ensures r.OpenFailed? ==> (r.discDataAttached <==> privateAllocated)
    ensures r.Opened? ==>
      && Valid(cfg, r.t)
      && HeadTracksCount(cfg, r.t.ring)
      && r.t.decoder.state == ZERO_STATE
      && (forall i | 0 <= i < |r.t.decoder.currentPkt| :: r.t.decoder.currentPkt[i] == 0)
      && (forall j | 0 <= j < |r.t.ring.readBuf| :: r.t.ring.readBuf[j] == 0)
      && r.t.ring.readHead == 0 && r.t.ring.readCnt == 0
  {
    if !privateAllocated then OpenFailed(-ENOMEM, false)
    else if !readBufAllocated then OpenFailed(-ENOMEM, true)
    else
      var decoder := Decoder(ZERO_STATE, seq(cfg.packetSize, _ => 0));
      var ring := Ring(seq(cfg.BufferSize(), _ => 0), 0, 0);
      Opened(Touch(decoder, ring))
  }

  /** The first data to arrive after a successful open finds the decoder in
      RESET: it issues the stream-mode command once, moves to STREAM_DATA,
      and leaves the still-empty read buffer alone. */
  lemma FirstReceiveAfterOpen(cfg: Config, ds: Datasheet, cp: seq<Byte>)
    ensures Open(cfg, true, true).Opened?
    ensures Dispatch(cfg, ds, Open(cfg, true, true).t.decoder, cp).decoder.state == StreamData
    ensures Dispatch(cfg, ds, Open(cfg, true, true).t.decoder, cp).writes == [cfg.modeStreamCommand]
  {
  }
}
