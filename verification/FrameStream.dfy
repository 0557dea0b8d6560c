/** Frames in the queue while both sides work: what a frame buffer keeps while the other side
    reads, and lists of frames through all interleavings. */
module FrameStream {
  import opened Bytes
  import opened FrameLayout
  import opened FrameQueue
  import opened PlaceRuns
  import opened QueueLayout
  import opened QueuePlaces
  import opened QueuePromises
  import opened QueueThreads

  // ----- a frame buffer while the other side reads -----

  /** What the reader and the flusher may do to the queue meanwhile. */
  predicate Read(s: Queue, t: Queue)
    requires QueueLayout.Valid(s)
  {
    || t == ReadLock(s) || t == QueueLayout.PeekUnlock(s) || t == Drain(s).0
    || (HaveData(s) && (FrontHeader(s); t == QueueLayout.ReadUnlock(s)))
  }

  lemma ReadKeepsSpace(s: Queue, t: Queue)
    requires QueueLayout.Valid(s) && Read(s, t)
    ensures QueueLayout.Valid(t) && t.buf == s.buf && t.wp == s.wp && Avail(t) >= Avail(s)
  {
    DrainEmpties(s);
    if HaveData(s) {
      FrontHeader(s);
      PopDropsFront(s);
      PopKeepsSpace(s);
    }
  }

  /** A frame buffer that has been handed out keeps its reservation, its header and its frame
      through everything the reading side does. */
  lemma HeldThroughReads(s: Queue, t: Queue, base: nat, fb: FrameBuffer, n: nat, h: Head, payload: seq<Byte>)
    requires QueueLayout.Valid(s) && Read(s, t) && Inside(s, base, fb, n) && n == FbRequest(fb.room, fb.align)
    ensures Inside(t, base, fb, n) && LoadU32(t.buf, fb.at + 4) == LoadU32(s.buf, fb.at + 4)
    ensures HeldFrame(s, base, fb, n, h, payload) ==> HeldFrame(t, base, fb, n, h, payload)
  {
    ReadKeepsSpace(s, t);
  }

  // ----- a list of frames through the queue -----

  /** A frame as its producer has it: to be copied, or filled in at its own address. */
  datatype Frame = Copied(head: Head, payload: seq<Byte>) | InPlace(head: Head, payload: seq<Byte>)

  /** The m bytes from offset `at` on are the block of this frame: a copy of header and payload,
      or a frame buffer with its picture, up to the picture's end. */
  ghost predicate Stands(buf: seq<Byte>, at: int, m: nat, base: nat, f: Frame) {
    match f
    case Copied(h, payload) =>
      && HeadOk(h) && |payload| == h.size && m == HEAD_SIZE + |payload|
      && 0 <= at && at + m <= |buf| && buf[at..at + m] == EncodeHead(h) + payload
    case InPlace(h, payload) =>
      && 0 <= at && base + at + HEAD_SIZE <= h.data && FrameIn(buf, at, h.data - base, h, payload)
      && m == h.size + (h.data - (base + at))
  }

  /** What a reader at address b is to get: a copied payload stands behind the header, one that
      was produced in place at its own address. */
  function Seen(f: Frame, b: nat): Head {
    if f.Copied? then f.head.(data := b + HEAD_SIZE) else f.head
  }

  lemma StandsIsRead(buf: seq<Byte>, at: int, m: nat, base: nat, f: Frame)
    requires Stands(buf, at, m, base, f)
    ensures 0 <= at && at + m <= |buf| && m >= HEAD_SIZE
    ensures Recovers(buf[at..at + m], base + at, Seen(f, base + at), f.payload)
  {
    if f.Copied? {
      CopiedFrameIsRecovered(f.head, f.payload, base + at);
    } else {
      BlockRecovers(buf, base, at, f.head, f.payload);
    }
  }

  /** The frames that the sends of a run have put into the queue, in order. */
  ghost predicate Made(tr: seq<Sys>, i: nat, base: nat, frames: seq<Frame>)
    requires i < |tr|
  {
    if i == 0 then frames == []
    else if !SendsAt(tr, i - 1) then Made(tr, i - 1, base, frames)
    else
      && frames != [] && Made(tr, i - 1, base, frames[..|frames| - 1])
      && var s := tr[i - 1]; s.w.WSend? && Stands(s.q.buf, s.q.wp + HEAD, s.w.m, base, frames[|frames| - 1])
  }

  lemma SendLogs(s: Sys, t: Sys)
    requires Pointers(s.q) && Next(s, t)
    ensures if Sends(s, t) then 0 <= s.q.wp + HEAD <= s.q.wp + HEAD + s.w.m <= |s.q.buf|
                                && t.log.sent == s.log.sent + [s.q.buf[s.q.wp + HEAD..s.q.wp + HEAD + s.w.m]]
            else t.log.sent == s.log.sent
  {
  }

  /** A reader of this block at offset `at` gets this frame. */
  ghost predicate Shows(block: Block, at: int, base: nat, f: Frame) {
    0 <= at && Recovers(block, base + at, Seen(f, base + at), f.payload)
  }

  /** Every block, read where it was sent, shows its frame. */
  ghost predicate AllShow(sent: seq<Block>, places: seq<int>, base: nat, frames: seq<Frame>) {
    && |sent| == |places| == |frames|
    && (sent == [] || (var k := |sent| - 1;
                       && Shows(sent[k], places[k], base, frames[k])
                       && AllShow(sent[..k], places[..k], base, frames[..k])))
  }

  lemma {:induction false} ShowsAt(sent: seq<Block>, places: seq<int>, base: nat, frames: seq<Frame>, k: nat)
    requires AllShow(sent, places, base, frames) && k < |sent|
    ensures Shows(sent[k], places[k], base, frames[k])
  {
    var last := |sent| - 1;
    if k < last {
      ShowsAt(sent[..last], places[..last], base, frames[..last], k);
    }
  }

  lemma OneMoreShows(sent: seq<Block>, places: seq<int>, base: nat, frames: seq<Frame>, b: Block, at: int, f: Frame)
    requires AllShow(sent, places, base, frames) && Shows(b, at, base, f)
    ensures AllShow(sent + [b], places + [at], base, frames + [f])
  {
    var k := |sent|;
    assert (sent + [b])[..k] == sent && (places + [at])[..k] == places && (frames + [f])[..k] == frames;
  }

  lemma SentShows(buf: seq<Byte>, at: int, m: nat, sent: seq<Block>, places: seq<int>, base: nat,
                  frames: seq<Frame>, f: Frame)
    requires AllShow(sent, places, base, frames) && Stands(buf, at, m, base, f)
    ensures 0 <= at && at + m <= |buf| && AllShow(sent + [buf[at..at + m]], places + [at], base, frames + [f])
  {
    StandsIsRead(buf, at, m, base, f);
    OneMoreShows(sent, places, base, frames, buf[at..at + m], at, f);
  }

  lemma LastFrame(frames: seq<Frame>)
    requires frames != []
    ensures frames == frames[..|frames| - 1] + [frames[|frames| - 1]]
  {
  }

  lemma RunLogs(tr: seq<Sys>, i: nat)
    requires Run(tr) && i + 1 < |tr|
    ensures var (s, t) := (tr[i], tr[i + 1]);
            if Sends(s, t) then 0 <= s.q.wp + HEAD <= s.q.wp + HEAD + s.w.m <= |s.q.buf|
                                && t.log.sent == s.log.sent + [s.q.buf[s.q.wp + HEAD..s.q.wp + HEAD + s.w.m]]
            else t.log.sent == s.log.sent
  {
    assert StepAt(tr, i);
    SendLogs(tr[i], tr[i + 1]);
  }

  lemma SentPlacesStep(tr: seq<Sys>, i: nat)
    requires i + 1 < |tr| && SendsAt(tr, i)
    ensures SentPlaces(tr, i + 1) == SentPlaces(tr, i) + [tr[i].q.wp + HEAD]
  {
  }

  /** A step that sends a frame. */
  lemma SendShows(buf: seq<Byte>, at: int, m: nat, sent: seq<Block>, logged: seq<Block>, places: seq<int>,
                  base: nat, before: seq<Frame>, f: Frame)
    requires AllShow(sent, places, base, before) && Stands(buf, at, m, base, f)
    requires 0 <= at <= at + m <= |buf| && logged == sent + [buf[at..at + m]]
    ensures AllShow(logged, places + [at], base, before + [f])
  {
    SentShows(buf, at, m, sent, places, base, before, f);
  }

  lemma {:induction false} SentShow(tr: seq<Sys>, i: nat, base: nat, frames: seq<Frame>)
    requires Run(tr) && i < |tr| && Made(tr, i, base, frames)
    ensures AllShow(tr[i].log.sent, SentPlaces(tr, i), base, frames)
  {
    if i > 0 {
      if SendsAt(tr, i - 1) {
        var before := frames[..|frames| - 1];
        SentShow(tr, i - 1, base, before);
        RunLogs(tr, i - 1);
        SentPlacesStep(tr, i - 1);
        var s := tr[i - 1];
        SendShows(s.q.buf, s.q.wp + HEAD, s.w.m, s.log.sent, tr[i].log.sent, SentPlaces(tr, i - 1),
                  base, before, frames[|frames| - 1]);
        LastFrame(frames);
      } else {
        RunLogs(tr, i - 1);
        SentShow(tr, i - 1, base, frames);
      }
    }
  }

  /** What the reader holds is the oldest block that is queued, and it is where it was sent. */
  lemma InView(tr: seq<Sys>, i: nat) returns (k: nat)
    requires Run(tr) && i < |tr| && ReaderHolds(tr[i].r)
    ensures k == |tr[i].log.out| < |tr[i].log.sent| == |SentPlaces(tr, i)|
    ensures SentPlaces(tr, i)[k] == tr[i].r.at >= 0 && tr[i].r.size >= 0
    ensures tr[i].r.at + tr[i].r.size <= |tr[i].q.buf|
    ensures tr[i].q.buf[tr[i].r.at..tr[i].r.at + tr[i].r.size] == tr[i].log.sent[k]
  {
    k := |tr[i].log.out|;
    Fifo(tr, i);
    QueuedInPlace(tr, i);
    ReaderPlace(tr, i);
  }

  /** End to end, over all interleavings of writer, reader, flusher and waker: when the blocks
      sent are the frames of a list, copied or produced in place, a reader that holds a block
      gets the next frame of the list that has not left the queue, with its fields and its
      payload; and what was produced in place it gets at the very address of its production. */
  lemma FramesInOrder(tr: seq<Sys>, i: nat, frames: seq<Frame>, base: nat)
    requires Run(tr) && i < |tr| && ReaderHolds(tr[i].r) && Made(tr, i, base, frames)
    ensures |frames| == |tr[i].log.sent| && |tr[i].log.out| < |frames|
    ensures var (r, buf, f) := (tr[i].r, tr[i].q.buf, frames[|tr[i].log.out|]);
            && 0 <= r.at && 0 <= r.size && r.at + r.size <= |buf|
            && Recovers(buf[r.at..r.at + r.size], base + r.at, Seen(f, base + r.at), f.payload)
  {
    var k := InView(tr, i);
    SentShow(tr, i, base, frames);
    ShowsAt(tr[i].log.sent, SentPlaces(tr, i), base, frames, k);
  }
}
