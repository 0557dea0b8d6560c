/** The frame functions of av_render.c over a data queue: put_to_v_render, read_for_v_render,
    the frame buffers that a decoder fills inside the queue, and the space test. */
module FrameQueue {
  import opened Bytes
  import opened QueueLayout
  import opened QueuePlaces
  import opened DataQueueClass
  import opened FrameLayout
  import opened Wrappers

  /** `Blocked`: the caller is parked in get_buffer. */
  datatype PutResult = Queued | Dropped | Blocked

  lemma TwoPuts(buf: seq<Byte>, at: nat, a: seq<Byte>, b: seq<Byte>)
    requires at + |a| + |b| <= |buf|
    ensures Put(Put(buf, at, a), at + |a|, b)[at..at + |a| + |b|] == a + b
  {
    var p := Put(buf, at, a);
    var r := Put(p, at + |a|, b);
    assert r[at..at + |a|] == p[at..at + |a|] == a;
    assert r[at..at + |a| + |b|] == r[at..at + |a|] + r[at + |a|..at + |a| + |b|];
  }

  /** Two copies into a reservation, one behind the other. */
  method FillTwo(q: DataQueue, ghost n: nat, at: nat, a: seq<Byte>, b: seq<Byte>)
    requires q.Valid() && Reserved(q.State(), n) && at == q.wp + HEAD && |a| + |b| == n
    modifies q.buffer
    ensures q.Valid() && q.Contents() == old(q.Contents()) && Reserved(q.State(), n)
    ensures at + n <= q.buffer.Length && q.buffer[at..at + n] == a + b
  {
    ghost var buf := q.buffer[..];
    q.Fill(n, at, a);
    q.Fill(n, at + |a|, b);
    TwoPuts(buf, at, a, b);
  }

  lemma SendsBlock(s: Queue, m: nat, block: seq<Byte>)
    requires QueueLayout.Valid(s) && 0 < m && CanSend(s, m)
    requires 0 <= s.wp && s.wp + HEAD + m <= |s.buf| && s.buf[s.wp + HEAD..s.wp + HEAD + m] == block
    ensures Sent(s, m) == [block]
    ensures QueueLayout.Valid(Send(s, m)) && Places(Send(s, m)) == Places(s) + [s.wp + HEAD]
  {
    SendPlaces(s, m);
  }

  /** Sending what has been filled of a reservation of n bytes: it cannot fail. */
  method SendShorter(q: DataQueue, ghost n: nat, ghost at: nat, m: nat, ghost block: seq<Byte>)
    requires q.Valid() && Reserved(q.State(), n) && 0 < m <= n && m + HEAD <= I32_MAX && at == q.wp + HEAD
    requires at + m <= q.buffer.Length && q.buffer[at..at + m] == block
    modifies q, q.buffer
    ensures q.Valid() && q.Contents() == old(q.Contents()) + [block]
    ensures Places(q.State()) == old(Places(q.State())) + [at]
  {
    ghost var s := q.State();
    assert s.buf[at..at + m] == block;
    SendsBlock(s, m, block);
    ghost var t, places := Send(s, m), Places(s);
    assert Places(t) == places + [at];
    var ret := q.SendBuffer(m);
    assert q.State() == t;
  }

  /** put_to_v_render (and put_to_adec, put_to_a_render without a pool): the frame becomes
      one block, header and payload. */
  method PutFrame(q: DataQueue, h: Head, payload: seq<Byte>) returns (r: PutResult)
    requires q.Valid() && HeadOk(h) && |payload| == h.size && HEAD_SIZE + |payload| + HEAD <= I32_MAX
    modifies q, q.buffer
    ensures q.Valid()
    ensures r == Dropped <==> HEAD_SIZE + |payload| + HEAD > q.buffer.Length || old(q.quit)
    ensures r == Queued <==> !old(q.quit) && HEAD_SIZE + |payload| + HEAD <= q.buffer.Length
                             && Granted(old(q.State()), HEAD_SIZE + |payload|)
    ensures q.Contents() ==
            if r == Queued then old(q.Contents()) + [EncodeHead(h) + payload] else old(q.Contents())
  {
    var size := HEAD_SIZE + |payload|;
    var g := q.GetBuffer(size);
    if g.Null? {
      return Dropped;
    }
    if g.MustWait? {
      return Blocked;
    }
    FillTwo(q, size, g.at, EncodeHead(h), payload);
    SendShorter(q, size, g.at, size, EncodeHead(h) + payload);
    r := Queued;
  }

  /** read_for_v_render: the front block as a frame, with the address of its payload.  The
      block stays locked until it is released.  `base` is the address of the queue's buffer. */
  method ReadFrameFront(q: DataQueue, base: nat) returns (f: Front, r: Option<Head>)
    requires q.Valid()
    requires q.Contents() != [] ==> |q.Contents()[0]| >= HEAD_SIZE
    modifies q`user
    ensures q.Valid() && q.Contents() == old(q.Contents())
    ensures f.Data? <==> !q.quit && q.Contents() != []
    ensures f.Data? ==>
              && f.at + f.size <= q.buffer.Length && q.buffer[f.at..f.at + f.size] == q.Contents()[0]
              && Places(q.State()) != [] && f.at == Places(q.State())[0]
              && r == ReadFrame(q.Contents()[0], base + f.at)
  {
    PlacesStand(q.State());
    f := q.ReadLock();
    if !f.Data? {
      return f, None;
    }
    var block := q.buffer[f.at..f.at + f.size];
    var b := base + f.at;
    var h := DecodeHead(block);
    if h.data > b && h.data + h.size == b + f.size {
      r := Some(h);
    } else if h.size + HEAD_SIZE != f.size {
      r := None;
    } else {
      r := Some(h.(data := b + HEAD_SIZE));
    }
  }

  /** av_render_audio_fifo_enough for a queue without a pool: when it says yes, putting the
      frame does not wait. */
  method FifoEnough(q: DataQueue, size: nat) returns (enough: bool)
    requires q.Valid()
    ensures q.Contents() == [] ==> (enough <==> 4 + 16 + size <= q.buffer.Length)
    ensures q.Contents() != [] && q.fillEnd == 0 ==> (enough <==> q.wp + 4 + 16 + size <= q.buffer.Length)
    ensures q.fillEnd != 0 ==> (enough <==> q.wp + 4 + 16 + size <= q.rp)
    ensures enough ==> HEAD_SIZE + size + HEAD <= q.buffer.Length && Granted(q.State(), HEAD_SIZE + size)
  {
    var avail := q.GetAvailable();
    enough := HEAD_SIZE + size <= avail;
    if enough {
      AnnouncedIsGranted(q.State(), HEAD_SIZE + size);
    }
  }

  /** A frame buffer that has been handed to the decoder: its header stands at offset `at`
      of the queue's buffer, its payload may take up to `room` bytes from address `data` on. */
  datatype FrameBuffer = FrameBuffer(at: nat, data: nat, align: nat, room: nat)

  /** The reservation is still held, and header and payload lie inside it. */
  ghost predicate Holds(q: DataQueue, base: nat, fb: FrameBuffer)
    reads q, q.buffer
  {
    q.Valid() && Inside(q.State(), base, fb, FbRequest(fb.room, fb.align))
  }

  predicate Inside(s: Queue, base: nat, fb: FrameBuffer, n: nat) {
    && fb.at == s.wp + HEAD && Reserved(s, n) && n + HEAD <= I32_MAX
    && fb.at + n <= |s.buf| && base + |s.buf| < U32_RANGE
    && base + fb.at + HEAD_SIZE <= fb.data < base + fb.at + HEAD_SIZE + fb.align
  }

  datatype Fetched = NoBuffer | Waits | Got(fb: FrameBuffer)

  /** The header of the frame buffer holds its own payload address. */
  ghost predicate Linked(q: DataQueue, base: nat, fb: FrameBuffer)
    reads q, q.buffer
  {
    Holds(q, base, fb) && LoadU32(q.buffer[..], fb.at + 4) == fb.data
  }

  /** The fields `data` and `size`, which lie side by side in the header. */
  method LinkFb(q: DataQueue, base: nat, fb: FrameBuffer)
    requires Holds(q, base, fb)
    modifies q.buffer
    ensures Linked(q, base, fb) && q.Contents() == old(q.Contents())
  {
    FieldsRead(q.buffer[..], fb.at, fb.data);
    q.Fill(FbRequest(fb.room, fb.align), fb.at + 4, EncodeU32(fb.data) + EncodeU32(0));
  }

  lemma FieldsRead(buf: seq<Byte>, at: nat, data: nat)
    requires at + HEAD_SIZE <= |buf| && data < U32_RANGE
    ensures LoadU32(Put(buf, at + 4, EncodeU32(data) + EncodeU32(0)), at + 4) == data
  {
    var fields := EncodeU32(data) + EncodeU32(0);
    var r := Put(buf, at + 4, fields);
    assert r[at + 4..at + 8] == r[at + 4..at + 12][..4] == fields[..4] == EncodeU32(data);
    StoreThenLoad(data);
  }

  /** av_render_fetch_vid_fb: a block with room for the header, the payload and its alignment
      is reserved, and the decoder gets the aligned address behind the header. */
  method FetchFb(q: DataQueue, base: nat, align: nat, size: nat) returns (r: Fetched)
    requires q.Valid() && PowerOfTwo(align) && FbRequest(size, align) + HEAD <= I32_MAX
    requires base + q.buffer.Length < U32_RANGE
    modifies q, q.buffer
    ensures q.Valid() && q.Contents() == old(q.Contents())
    ensures r.Got? ==> Linked(q, base, r.fb) && r.fb.room == size && Aligned(r.fb.data, align)
    ensures r == NoBuffer <==> size == 0 || 4 + 16 + size + align > q.buffer.Length || old(q.quit)
    ensures r == NoBuffer ==> q.State() == old(q.State())
    ensures r.Got? <==> size > 0 && 4 + 16 + size + align <= q.buffer.Length && !old(q.quit)
                        && Granted(old(q.State()), 16 + size + align)
    ensures r.Got? ==> r.fb.data % align == 0 && base + r.fb.at + 16 <= r.fb.data < base + r.fb.at + 16 + align
  {
    if size == 0 {
      return NoBuffer;
    }
    var g := q.GetBuffer(FbRequest(size, align));
    if g.Null? {
      return NoBuffer;
    }
    if g.MustWait? {
      return Waits;
    }
    FbFits(base + g.at, size, align);
    AlignedDivides(FbData(base + g.at, align), align);
    var fb := FrameBuffer(g.at, FbData(base + g.at, align), align, size);
    LinkFb(q, base, fb);
    r := Got(fb);
  }

  /** What the block of a frame buffer holds: the header with the payload address, and the
      payload at that address. */
  ghost predicate FrameIn(buf: seq<Byte>, at: nat, d: nat, h: Head, payload: seq<Byte>) {
    && HeadOk(h) && |payload| == h.size && at + HEAD_SIZE <= d && d + h.size <= |buf|
    && DecodeHead(buf[at..at + HEAD_SIZE]) == h && buf[d..d + h.size] == payload
  }

  ghost predicate HasFrame(q: DataQueue, base: nat, fb: FrameBuffer, h: Head, payload: seq<Byte>)
    reads q, q.buffer
  {
    q.Valid() && HeldFrame(q.State(), base, fb, FbRequest(fb.room, fb.align), h, payload)
  }

  ghost predicate HeldFrame(s: Queue, base: nat, fb: FrameBuffer, n: nat, h: Head, payload: seq<Byte>) {
    && Inside(s, base, fb, n) && h.data == fb.data && h.size <= fb.room
    && FrameIn(s.buf, fb.at, fb.data - base, h, payload)
  }

  lemma FrameHeld(s: Queue, t: Queue, base: nat, fb: FrameBuffer, n: nat, h: Head, payload: seq<Byte>)
    requires Inside(s, base, fb, n) && t == s.(buf := t.buf) && |t.buf| == |s.buf|
    requires h.data == fb.data && h.size <= fb.room
    ensures FrameIn(t.buf, fb.at, fb.data - base, h, payload) ==> HeldFrame(t, base, fb, n, h, payload)
  {
  }

  /** The decoder writes its picture and announces it (the use_fb branch of
      av_render_video_frame_reached): the frame's fields go into the header, except that the
      header keeps its own payload address. */
  method FrameReached(q: DataQueue, base: nat, fb: FrameBuffer, h: Head, payload: seq<Byte>)
    requires Linked(q, base, fb) && HeadOk(h) && |payload| == h.size <= fb.room
    modifies q.buffer
    ensures HasFrame(q, base, fb, h.(data := fb.data), payload)
    ensures q.Contents() == old(q.Contents())
  {
    var data := LoadFbData(q, base, fb);
    StoreFrame(q, base, fb, data - base, h.(data := data), payload);
  }

  method LoadFbData(q: DataQueue, ghost base: nat, fb: FrameBuffer) returns (data: nat)
    requires Linked(q, base, fb)
    ensures data == fb.data
  {
    data := LoadU32(q.buffer[..], fb.at + 4);
  }

  /** The picture goes to offset d, the header in front of it. */
  method StoreFrame(q: DataQueue, base: nat, fb: FrameBuffer, d: nat, h: Head, payload: seq<Byte>)
    requires Holds(q, base, fb) && HeadOk(h) && |payload| == h.size <= fb.room
    requires h.data == fb.data == base + d
    modifies q.buffer
    ensures HasFrame(q, base, fb, h, payload) && q.Contents() == old(q.Contents())
  {
    ghost var s, n := q.State(), FbRequest(fb.room, fb.align);
    StoreParts(q, n, fb.at, d, h, payload);
    FrameHeld(s, q.State(), base, fb, n, h, payload);
  }

  method StoreParts(q: DataQueue, ghost n: nat, at: nat, d: nat, h: Head, payload: seq<Byte>)
    requires q.Valid() && Reserved(q.State(), n) && at == q.wp + HEAD && HeadOk(h) && |payload| == h.size
    requires at + HEAD_SIZE <= d && d + |payload| <= at + n && at + n <= q.buffer.Length
    modifies q.buffer
    ensures q.Valid() && q.Contents() == old(q.Contents()) && q.State() == old(q.State()).(buf := q.buffer[..])
    ensures FrameIn(q.State().buf, at, d, h, payload)
  {
    FrameStored(q.buffer[..], at, d, h, payload);
    FillApart(q, n, d, payload, at, EncodeHead(h));
  }

  /** Two copies into a reservation, the second one in front of the first. */
  method FillApart(q: DataQueue, ghost n: nat, d: nat, payload: seq<Byte>, at: nat, head: seq<Byte>)
    requires q.Valid() && Reserved(q.State(), n) && at == q.wp + HEAD
    requires at + |head| <= d && d + |payload| <= at + n && at + n <= q.buffer.Length
    modifies q.buffer
    ensures q.Valid() && q.Contents() == old(q.Contents()) && q.State() == old(q.State()).(buf := q.buffer[..])
    ensures q.buffer[..] == Put(Put(old(q.buffer[..]), d, payload), at, head)
  {
    q.Fill(n, d, payload);
    q.Fill(n, at, head);
  }

  lemma FrameStored(buf: seq<Byte>, at: nat, d: nat, h: Head, payload: seq<Byte>)
    requires HeadOk(h) && |payload| == h.size && at + HEAD_SIZE <= d && d + h.size <= |buf|
    ensures FrameIn(Put(Put(buf, d, payload), at, EncodeHead(h)), at, d, h, payload)
  {
    var b := Put(Put(buf, d, payload), at, EncodeHead(h));
    SameSlice(Put(buf, d, payload), b, d, d + |payload|);
    HeadRoundTrip(h, b[at..at + HEAD_SIZE]);
  }

  /** A reader of this block at address b gets frame h with this payload. */
  ghost predicate Recovers(block: seq<Byte>, b: nat, h: Head, payload: seq<Byte>) {
    && |block| >= HEAD_SIZE && b + HEAD_SIZE <= h.data && h.data - b + h.size <= |block|
    && ReadFrame(block, b) == Some(h) && PayloadAt(block, b, h) == payload
  }

  /** av_render_release_vid_fb without drop: the block is sent up to the end of the payload,
      the send cannot fail, the block stands where the buffer was handed out, and read there it
      yields the same frame at the same address. */
  method ReleaseFb(q: DataQueue, base: nat, fb: FrameBuffer, ghost h: Head, ghost payload: seq<Byte>)
      returns (size: nat, ghost block: seq<Byte>)
    requires HasFrame(q, base, fb, h, payload)
    modifies q, q.buffer
    ensures q.Valid() && q.Contents() == old(q.Contents()) + [block] && size == |block|
    ensures Places(q.State()) == old(Places(q.State())) + [fb.at] && Recovers(block, base + fb.at, h, payload)
  {
    size, block := SendFrame(q, FbRequest(fb.room, fb.align), base, fb.at, h, payload);
  }

  method SendFrame(q: DataQueue, ghost n: nat, base: nat, at: nat, ghost h: Head, ghost payload: seq<Byte>)
      returns (size: nat, ghost block: seq<Byte>)
    requires q.Valid() && Reserved(q.State(), n) && at == q.wp + HEAD && n + HEAD <= I32_MAX
    requires base + at + HEAD_SIZE <= h.data && h.size + (h.data - (base + at)) <= n
    requires FrameIn(q.buffer[..], at, h.data - base, h, payload)
    modifies q, q.buffer
    ensures q.Valid() && q.Contents() == old(q.Contents()) + [block] && size == |block|
    ensures Places(q.State()) == old(Places(q.State())) + [at] && Recovers(block, base + at, h, payload)
  {
    size := SentSize(q.buffer, base, at, h, payload);
    block := q.buffer[..][at..at + size];
    SendShorter(q, n, at, size, block);
  }

  /** The size that release computes from the header it finds in the block. */
  method SentSize(buf: array<Byte>, base: nat, at: nat, ghost h: Head, ghost payload: seq<Byte>) returns (size: nat)
    requires base + at + HEAD_SIZE <= h.data && FrameIn(buf[..], at, h.data - base, h, payload)
    ensures size == h.size + (h.data - (base + at)) && at + size <= buf.Length
    ensures Recovers(buf[..][at..at + size], base + at, h, payload)
  {
    BlockRecovers(buf[..], base, at, h, payload);
    var head := DecodeHead(buf[at..]);
    size := head.size + (head.data - (base + at));
  }

  /** Only the first 16 bytes matter to the decoding of a header. */
  lemma SameHead(s: seq<Byte>, t: seq<Byte>)
    requires |s| >= HEAD_SIZE && |t| >= HEAD_SIZE && s[..HEAD_SIZE] == t[..HEAD_SIZE]
    ensures DecodeHead(s) == DecodeHead(t)
  {
    assert s[0..4] == s[..HEAD_SIZE][0..4] == t[0..4];
    assert s[4..8] == s[..HEAD_SIZE][4..8] == t[4..8];
    assert s[8..12] == s[..HEAD_SIZE][8..12] == t[8..12];
    assert s[12..16] == s[..HEAD_SIZE][12..16] == t[12..16];
  }

  lemma BlockRecovers(buf: seq<Byte>, base: nat, at: nat, h: Head, payload: seq<Byte>)
    requires base + at + HEAD_SIZE <= h.data && FrameIn(buf, at, h.data - base, h, payload)
    ensures DecodeHead(buf[at..]) == h
    ensures Recovers(buf[at..at + (h.size + (h.data - (base + at)))], base + at, h, payload)
  {
    var d := h.data - (base + at);
    var block := buf[at..at + (h.size + d)];
    SameHead(buf[at..at + HEAD_SIZE], buf[at..]);
    SameHead(buf[at..at + HEAD_SIZE], block);
    InPlaceFrameIsRecovered(block, base + at, h, payload);
  }

  /** Releasing with drop sends nothing. */
  method DropFb(q: DataQueue, ghost base: nat, ghost fb: FrameBuffer) returns (ret: int)
    requires Holds(q, base, fb)
    modifies q, q.buffer
    ensures q.Valid() && ret == 0 && q.Contents() == old(q.Contents())
  {
    ret := q.SendBuffer(0);
    assert q.Contents() == old(q.Contents()) + [];
  }
}
