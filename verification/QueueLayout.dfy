/** The memory layout of the data queue and what each critical section does to it,
    on values.  A queue is one byte buffer in which every block is stored as a
    4-byte length (header included) followed by its payload.  Two shapes occur:
      fillEnd == 0:  [ ... rp blocks wp ... ]
      fillEnd != 0:  [ blocks wp ... rp blocks fillEnd ... ] */
module QueueLayout {
  import opened Bytes
  import opened Wrappers

  type Block = seq<Byte>

  const HEAD := 4

  datatype Queue = Queue(buf: seq<Byte>, fillEnd: int, wp: int, rp: int, filled: int, user: int, quit: bool)

  // ----- reading the blocks back out of the bytes -----

  /** The length word in front of a block.  The source loads it as a signed int; as a
      buffer holds at most I32_MAX bytes, its test "negative or beyond the size" and
      the unsigned "beyond the size" agree. */
  function Header(buf: seq<Byte>, at: int): nat
    requires 0 <= at && at + HEAD <= |buf|
  {
    LoadU32(buf, at)
  }

  /** The headers found from `lo` on lead exactly to `hi`. */
  predicate Tiled(buf: seq<Byte>, lo: int, hi: int)
    requires 0 <= lo <= hi <= |buf|
    decreases hi - lo
  {
    lo == hi
    || (lo + HEAD <= hi
        && HEAD < Header(buf, lo) <= hi - lo
        && Tiled(buf, lo + Header(buf, lo), hi))
  }

  /** The payloads stored between `lo` and `hi`. */
  function Blocks(buf: seq<Byte>, lo: int, hi: int): seq<Block>
    requires 0 <= lo <= hi <= |buf| && Tiled(buf, lo, hi)
    decreases hi - lo
  {
    if lo == hi then []
    else
      var h := Header(buf, lo);
      [buf[lo + HEAD..lo + h]] + Blocks(buf, lo + h, hi)
  }

  /** Bytes that a list of blocks takes in the buffer. */
  function Footprint(blocks: seq<Block>): nat {
    if blocks == [] then 0 else HEAD + |blocks[0]| + Footprint(blocks[1..])
  }

  /** Payload bytes of a list of blocks. */
  function Payload(blocks: seq<Block>): nat {
    if blocks == [] then 0 else |blocks[0]| + Payload(blocks[1..])
  }

  lemma {:induction false} FootprintAppend(a: seq<Block>, b: seq<Block>)
    ensures Footprint(a + b) == Footprint(a) + Footprint(b)
    ensures Payload(a + b) == Payload(a) + Payload(b)
  {
    if a == [] {
      assert a + b == b;
    } else {
      FootprintAppend(a[1..], b);
      assert (a + b)[1..] == a[1..] + b;
    }
  }

  lemma {:induction false} FootprintPayload(blocks: seq<Block>)
    ensures Footprint(blocks) == Payload(blocks) + HEAD * |blocks|
  {
    if blocks != [] {
      FootprintPayload(blocks[1..]);
    }
  }

  lemma {:induction false} BlocksFootprint(buf: seq<Byte>, lo: int, hi: int)
    requires 0 <= lo <= hi <= |buf| && Tiled(buf, lo, hi)
    ensures Footprint(Blocks(buf, lo, hi)) == hi - lo
    ensures (forall b :: b in Blocks(buf, lo, hi) ==> 0 < |b|)
    decreases hi - lo
  {
    if lo < hi {
      var h := Header(buf, lo);
      BlocksFootprint(buf, lo + h, hi);
      assert Blocks(buf, lo, hi)[1..] == Blocks(buf, lo + h, hi);
    }
  }

  /** Bytes outside the region do not matter. */
  lemma {:induction false} BlocksFrame(buf: seq<Byte>, other: seq<Byte>, lo: int, hi: int)
    requires 0 <= lo <= hi <= |buf| == |other|
    requires Tiled(buf, lo, hi)
    requires forall i :: lo <= i < hi ==> buf[i] == other[i]
    ensures Tiled(other, lo, hi) && Blocks(other, lo, hi) == Blocks(buf, lo, hi)
    decreases hi - lo
  {
    if lo < hi {
      var h := Header(buf, lo);
      SameSlice(buf, other, lo, lo + HEAD);
      assert Header(other, lo) == h;
      SameSlice(buf, other, lo + HEAD, lo + h);
      BlocksFrame(buf, other, lo + h, hi);
      assert Tiled(other, lo, hi);
    }
  }

  lemma {:induction false} BlocksJoin(buf: seq<Byte>, a: int, b: int, c: int)
    requires 0 <= a <= b <= c <= |buf| && Tiled(buf, a, b) && Tiled(buf, b, c)
    ensures Tiled(buf, a, c) && Blocks(buf, a, c) == Blocks(buf, a, b) + Blocks(buf, b, c)
    decreases b - a
  {
    if a < b {
      var next := a + Header(buf, a);
      BlocksJoin(buf, next, b, c);
      Associative([buf[a + HEAD..next]], Blocks(buf, next, b), Blocks(buf, b, c));
    } else {
      assert [] + Blocks(buf, b, c) == Blocks(buf, b, c);
    }
  }

  // ----- the invariant and the abstract queue -----

  /** One of the two shapes, with the byte count `filled` agreeing with the pointers. */
  predicate Pointers(q: Queue) {
    && 0 <= q.rp && 0 <= q.wp && |q.buf| <= I32_MAX
    && if q.fillEnd == 0 then q.rp <= q.wp <= |q.buf| && q.filled == q.wp - q.rp
       else q.wp <= q.rp < q.fillEnd <= |q.buf| && q.filled == q.fillEnd - q.rp + q.wp
  }

  /** The invariant: pointers in shape and headers tiling the occupied regions exactly. */
  predicate Valid(q: Queue) {
    && Pointers(q)
    && if q.fillEnd == 0 then Tiled(q.buf, q.rp, q.wp)
       else Tiled(q.buf, q.rp, q.fillEnd) && Tiled(q.buf, 0, q.wp)
  }

  /** The queue as a client sees it: the blocks in the order in which they will be read. */
  function Contents(q: Queue): seq<Block>
    requires Valid(q)
  {
    if q.fillEnd == 0 then Blocks(q.buf, q.rp, q.wp)
    else Blocks(q.buf, q.rp, q.fillEnd) + Blocks(q.buf, 0, q.wp)
  }

  /** `filled` counts exactly the bytes of the queued blocks, and no queued block is empty. */
  lemma ContentsFootprint(q: Queue)
    requires Valid(q)
    ensures Footprint(Contents(q)) == q.filled
    ensures (forall b :: b in Contents(q) ==> 0 < |b|)
    ensures Contents(q) == [] <==> q.filled == 0
  {
    if q.fillEnd == 0 {
      BlocksFootprint(q.buf, q.rp, q.wp);
    } else {
      BlocksFootprint(q.buf, q.rp, q.fillEnd);
      BlocksFootprint(q.buf, 0, q.wp);
      FootprintAppend(Blocks(q.buf, q.rp, q.fillEnd), Blocks(q.buf, 0, q.wp));
    }
  }

  // ----- the critical sections -----

  function Init(buf: seq<Byte>): Queue {
    Queue(buf, 0, 0, 0, 0, 0, false)
  }

  function Avail(q: Queue): int {
    if q.wp > q.rp then |q.buf| - q.wp
    else if q.wp == q.rp then (if q.fillEnd != 0 then 0 else |q.buf| - q.wp)
    else q.rp - q.wp
  }

  function GetAvailable(q: Queue): int {
    var avail := if q.wp == q.rp && q.fillEnd == 0 then |q.buf| else Avail(q);
    if avail >= HEAD then avail - HEAD else 0
  }

  predicate HaveData(q: Queue) {
    !(q.wp == q.rp && q.fillEnd == 0)
  }

  /** The wrap that get_buffer performs when the space behind wp is too small. */
  function Wrap(q: Queue, need: int): Queue {
    if Avail(q) < need && q.fillEnd == 0 then
      if q.wp == q.rp then q.(wp := 0, rp := 0, fillEnd := 0) else q.(fillEnd := q.wp, wp := 0)
    else q
  }

  /** One pass of get_buffer's loop for `n` payload bytes: the space is granted
      (with the queue as it is after the wrap), or the writer has to wait. */
  predicate Granted(q: Queue, n: nat) {
    Avail(Wrap(q, n + HEAD)) >= n + HEAD
  }

  function Reserve(q: Queue, n: nat): Queue {
    var w := Wrap(q, n + HEAD);
    w.(user := w.user + 1)
  }

  predicate CanSend(q: Queue, m: nat) {
    Avail(q) >= m + HEAD
  }

  function Send(q: Queue, m: nat): Queue
    requires Pointers(q)
  {
    if m == 0 || !CanSend(q, m) then q.(user := q.user - 1)
    else
      q.(buf := Put(q.buf, q.wp, EncodeU32(m + HEAD)),
         wp := q.wp + (m + HEAD), filled := q.filled + (m + HEAD), user := q.user - 1)
  }

  /** The block that a send of m bytes adds. */
  function Sent(q: Queue, m: nat): seq<Block>
    requires Pointers(q)
  {
    if m == 0 || !CanSend(q, m) then [] else [q.buf[q.wp + HEAD..q.wp + HEAD + m]]
  }

  /** Where read_lock looks for the front block: computed from `filled`, not from rp. */
  function ReadPos(q: Queue): int {
    if q.filled <= q.wp then q.wp - q.filled else q.wp + q.fillEnd - q.filled
  }

  function ReadLock(q: Queue): Queue {
    q.(user := q.user + 1)
  }

  function PeekUnlock(q: Queue): Queue {
    q.(user := q.user - 1)
  }

  /** Dropping the front block, shared by read_unlock and consume_all. */
  function Pop(q: Queue): Queue
    requires 0 <= q.rp && q.rp + HEAD <= |q.buf|
  {
    var size := Header(q.buf, q.rp);
    var rp := q.rp + size;
    if q.fillEnd != 0 && rp >= q.fillEnd then q.(fillEnd := 0, rp := 0, filled := q.filled - size)
    else q.(rp := rp, filled := q.filled - size)
  }

  function ReadUnlock(q: Queue): Queue
    requires HaveData(q) ==> 0 <= q.rp && q.rp + HEAD <= |q.buf|
  {
    if HaveData(q) then
      var p := Pop(q);
      p.(user := p.user - 1)
    else q
  }

  // ----- what the critical sections do to the abstract queue -----

  /** The two emptiness tests of the source agree with each other and with the blocks. */
  lemma EmptyTests(q: Queue)
    requires Valid(q)
    ensures HaveData(q) <==> q.filled != 0
    ensures HaveData(q) <==> Contents(q) != []
  {
    ContentsFootprint(q);
  }

  /** read_lock's recomputed position is rp, and the header found there passes every
      corruption test: it is the length of the front block, which lies in one piece. */
  lemma FrontHeader(q: Queue)
    requires Valid(q) && HaveData(q)
    ensures ReadPos(q) == q.rp
    ensures q.rp + HEAD <= |q.buf| && HEAD < Header(q.buf, q.rp)
    ensures q.rp + Header(q.buf, q.rp) <= if q.fillEnd == 0 then q.wp else q.fillEnd
    ensures Contents(q) != [] && Contents(q)[0] == q.buf[q.rp + HEAD..q.rp + Header(q.buf, q.rp)]
  {
  }

  /** Stepping over the first block of a region drops the first payload. */
  lemma BlocksStep(buf: seq<Byte>, lo: int, hi: int)
    requires 0 <= lo < hi <= |buf| && Tiled(buf, lo, hi)
    ensures lo + HEAD <= hi && HEAD < Header(buf, lo) <= hi - lo
    ensures Tiled(buf, lo + Header(buf, lo), hi)
    ensures Blocks(buf, lo, hi) != [] && Blocks(buf, lo, hi)[1..] == Blocks(buf, lo + Header(buf, lo), hi)
    ensures Blocks(buf, lo, hi)[0] == buf[lo + HEAD..lo + Header(buf, lo)]
  {
  }

  lemma DropFirst<T>(a: seq<T>, b: seq<T>)
    requires a != []
    ensures (a + b)[1..] == a[1..] + b
  {
  }

  lemma PopDropsFront(q: Queue)
    requires Valid(q) && HaveData(q)
    ensures q.rp + HEAD <= |q.buf| && Valid(Pop(q)) && Pop(q).wp == q.wp && Pop(q).buf == q.buf
    ensures Contents(Pop(q)) == Contents(q)[1..]
  {
    if q.fillEnd == 0 {
      PopFlat(q, Pop(q));
    } else {
      BlocksStep(q.buf, q.rp, q.fillEnd);
      PopWrapped(q, q.rp + Header(q.buf, q.rp), Pop(q));
    }
  }

  lemma PopFlat(q: Queue, p: Queue)
    requires Valid(q) && q.fillEnd == 0 && q.rp + HEAD <= q.wp
    requires p == q.(rp := q.rp + Header(q.buf, q.rp), filled := q.filled - Header(q.buf, q.rp))
    ensures Valid(p) && Contents(p) == Contents(q)[1..]
  {
    BlocksStep(q.buf, q.rp, q.wp);
  }

  lemma PopWrapped(q: Queue, next: int, p: Queue)
    requires Valid(q) && q.fillEnd != 0 && q.rp < next <= q.fillEnd && Tiled(q.buf, next, q.fillEnd)
    requires p == if next == q.fillEnd then q.(fillEnd := 0, rp := 0, filled := q.wp)
                  else q.(rp := next, filled := q.fillEnd - next + q.wp)
    requires Blocks(q.buf, q.rp, q.fillEnd) != []
    requires Blocks(q.buf, q.rp, q.fillEnd)[1..] == Blocks(q.buf, next, q.fillEnd)
    ensures Valid(p) && Contents(p) == Contents(q)[1..]
  {
    var lower := Blocks(q.buf, 0, q.wp);
    AsWrapped(q);
    DropFirst(Blocks(q.buf, q.rp, q.fillEnd), lower);
    if next == q.fillEnd {
      AsFlat(p);
      assert [] + lower == lower;
    } else {
      AsWrapped(p);
    }
  }

  lemma AsFlat(q: Queue)
    requires q.fillEnd == 0 && Pointers(q) && Tiled(q.buf, q.rp, q.wp)
    ensures Valid(q) && Contents(q) == Blocks(q.buf, q.rp, q.wp)
  {
  }

  lemma AsWrapped(q: Queue)
    requires q.fillEnd != 0 && Pointers(q) && Tiled(q.buf, q.rp, q.fillEnd) && Tiled(q.buf, 0, q.wp)
    ensures Valid(q) && Contents(q) == Blocks(q.buf, q.rp, q.fillEnd) + Blocks(q.buf, 0, q.wp)
  {
  }

  lemma WrapKeeps(q: Queue, need: int)
    requires Valid(q) && need <= |q.buf|
    ensures Valid(Wrap(q, need)) && Contents(Wrap(q, need)) == Contents(q)
    ensures Wrap(q, need).buf == q.buf && Wrap(q, need).filled == q.filled
    ensures Wrap(q, need).user == q.user && Wrap(q, need).quit == q.quit
  {
    if Avail(q) < need && q.fillEnd == 0 && q.wp != q.rp {
      assert Blocks(q.buf, 0, 0) == [];
    }
  }

  /** Storing a header turns the m bytes behind it into one block. */
  lemma BlockWritten(buf: seq<Byte>, at: nat, m: nat)
    requires 0 < m && at + HEAD + m <= |buf| <= I32_MAX
    ensures var s := Put(buf, at, EncodeU32(m + HEAD));
            Tiled(s, at, at + HEAD + m)
            && Blocks(s, at, at + HEAD + m) == [buf[at + HEAD..at + HEAD + m]]
  {
    var s := Put(buf, at, EncodeU32(m + HEAD));
    var end := at + HEAD + m;
    assert s[at..at + 4] == EncodeU32(m + HEAD);
    StoreThenLoad(m + HEAD);
    assert Header(s, at) == m + HEAD;
    assert Tiled(s, end, end) && Blocks(s, end, end) == [];
    assert s[at + HEAD..end] == buf[at + HEAD..end];
  }

  lemma BlockAppended(buf: seq<Byte>, lo: nat, at: nat, m: nat, s: seq<Byte>, end: nat)
    requires lo <= at && 0 < m && end == at + HEAD + m <= |buf| <= I32_MAX && Tiled(buf, lo, at)
    requires s == Put(buf, at, EncodeU32(m + HEAD))
    ensures Tiled(s, lo, end) && Blocks(s, lo, end) == Blocks(buf, lo, at) + [buf[at + HEAD..end]]
  {
    BlockWritten(buf, at, m);
    BlocksFrame(buf, s, lo, at);
    BlocksJoin(s, lo, at, end);
  }

  lemma SendFlat(q: Queue, m: nat, s: Queue)
    requires Valid(q) && q.fillEnd == 0 && m > 0 && CanSend(q, m) && s == Send(q, m)
    ensures Valid(s) && Contents(s) == Contents(q) + [q.buf[q.wp + HEAD..q.wp + HEAD + m]]
  {
    BlockAppended(q.buf, q.rp, q.wp, m, s.buf, s.wp);
    AsFlat(s);
  }

  lemma SendWrapped(q: Queue, m: nat, s: Queue)
    requires Valid(q) && q.fillEnd != 0 && m > 0 && CanSend(q, m) && s == Send(q, m)
    ensures Valid(s) && Contents(s) == Contents(q) + [q.buf[q.wp + HEAD..q.wp + HEAD + m]]
  {
    BlocksFrame(q.buf, s.buf, q.rp, q.fillEnd);
    var lower := LowerAppended(q, m, s);
    Associative(Blocks(q.buf, q.rp, q.fillEnd), Blocks(q.buf, 0, q.wp), lower);
  }

  lemma LowerAppended(q: Queue, m: nat, s: Queue) returns (last: seq<Block>)
    requires Pointers(q) && Tiled(q.buf, 0, q.wp) && m > 0 && q.wp + HEAD + m <= |q.buf|
    requires s.buf == Put(q.buf, q.wp, EncodeU32(m + HEAD)) && s.wp == q.wp + HEAD + m
    ensures Tiled(s.buf, 0, s.wp) && Blocks(s.buf, 0, s.wp) == Blocks(q.buf, 0, q.wp) + last
    ensures last == [q.buf[q.wp + HEAD..q.wp + HEAD + m]]
  {
    last := [q.buf[q.wp + HEAD..q.wp + HEAD + m]];
    BlockAppended(q.buf, 0, q.wp, m, s.buf, s.wp);
  }

  /** Sending m bytes appends them as one block, byte for byte; a zero size or a
      failed send leaves the blocks alone. */
  lemma SendAppends(q: Queue, m: nat)
    requires Valid(q)
    ensures Valid(Send(q, m)) && Contents(Send(q, m)) == Contents(q) + Sent(q, m)
  {
    if m == 0 || !CanSend(q, m) {
      assert Contents(q) + [] == Contents(q);
    } else if q.fillEnd == 0 {
      SendFlat(q, m, Send(q, m));
    } else {
      SendWrapped(q, m, Send(q, m));
    }
  }

  // ----- reservations -----

  /** The writer owns HEAD + n bytes from wp on. */
  predicate Reserved(q: Queue, n: nat) {
    Avail(q) >= n + HEAD
  }

  /** Whatever the owner writes into its reservation, no queued block changes. */
  lemma ReservationIsDisjoint(q: Queue, n: nat, other: seq<Byte>)
    requires Valid(q) && Reserved(q, n) && |other| == |q.buf|
    requires forall i :: 0 <= i < |other| && !(q.wp <= i < q.wp + HEAD + n) ==> other[i] == q.buf[i]
    ensures q.wp + HEAD + n <= |q.buf|
    ensures Valid(q.(buf := other)) && Contents(q.(buf := other)) == Contents(q)
  {
    if q.fillEnd == 0 {
      BlocksFrame(q.buf, other, q.rp, q.wp);
    } else {
      BlocksFrame(q.buf, other, q.rp, q.fillEnd);
      BlocksFrame(q.buf, other, 0, q.wp);
    }
  }

  lemma PopKeepsSpace(q: Queue)
    requires Valid(q) && HaveData(q)
    ensures q.rp + HEAD <= |q.buf| && Avail(Pop(q)) >= Avail(q)
  {
    FrontHeader(q);
  }

  /** Any number of pops, including one that resets rp and fillEnd, leaves wp in
      place and never takes space away from a reservation. */
  lemma {:induction false} ReservationIsStable(q: Queue, n: nat, pops: nat)
    requires Valid(q) && Reserved(q, n) && pops <= |Contents(q)|
    ensures Valid(PopMany(q, pops)) && Reserved(PopMany(q, pops), n) && PopMany(q, pops).wp == q.wp
    ensures Contents(PopMany(q, pops)) == Contents(q)[pops..]
    decreases pops
  {
    if pops > 0 {
      EmptyTests(q);
      PopDropsFront(q);
      PopKeepsSpace(q);
      ReservationIsStable(Pop(q), n, pops - 1);
    }
  }

  function PopMany(q: Queue, pops: nat): Queue
    requires Valid(q) && pops <= |Contents(q)|
    decreases pops
  {
    if pops == 0 then q
    else
      EmptyTests(q);
      PopDropsFront(q);
      PopMany(Pop(q), pops - 1)
  }

  /** The first position from wp on that the writer must not reach: the end of the buffer, or
      in a wrapped queue the oldest block. */
  function Limit(q: Queue): int {
    if q.fillEnd == 0 then |q.buf| else q.rp
  }

  /** A pass of get_buffer's loop grants n bytes without waiting exactly when the queue
      is empty, or the bytes and their length word end in front of the limit, or (not yet
      wrapped) they fit in front of rp. */
  lemma GrantedExactly(q: Queue, n: nat)
    requires Valid(q) && n + HEAD <= |q.buf|
    ensures Granted(q, n) <==>
            Contents(q) == [] || q.wp + HEAD + n <= Limit(q) || (q.fillEnd == 0 && n + HEAD <= q.rp)
  {
    EmptyTests(q);
  }

  /** A send of m bytes finds its space exactly when they and their length word end in front of
      the limit. */
  lemma CanSendExactly(q: Queue, m: nat)
    requires Valid(q)
    ensures CanSend(q, m) <==> q.wp + HEAD + m <= Limit(q)
  {
  }

  /** get_available announces everything from wp up to the limit, or the whole buffer if the
      queue is empty, less one length word, and 0 if there is no room for that. */
  lemma AnnouncedExactly(q: Queue)
    requires Valid(q)
    ensures var space := if Contents(q) == [] then |q.buf| else Limit(q) - q.wp;
            GetAvailable(q) == if space < HEAD then 0 else space - HEAD
  {
    EmptyTests(q);
  }

  /** What get_available announces is granted at once; on an unwrapped queue more may be. */
  lemma AnnouncedIsGranted(q: Queue, n: nat)
    requires Valid(q) && 0 < n <= GetAvailable(q)
    ensures n + HEAD <= |q.buf| && Granted(q, n)
  {
  }

  /** A writer is made to wait only by a queue that is wrapped, hence not empty. */
  lemma WaitingMeansWrapped(q: Queue, n: nat)
    requires Valid(q) && n + HEAD <= |q.buf| && !Granted(q, n)
    ensures Wrap(q, n + HEAD).fillEnd != 0 && q.filled > 0
  {
  }

  // ----- draining and counting -----

  /** A block that fills the whole buffer: the one length that consume_all rejects
      (its test is >= where every other site tests >). */
  predicate WholeBuffer(q: Queue, b: Block) {
    |b| + HEAD >= |q.buf|
  }

  lemma {:induction false} FootprintMember(blocks: seq<Block>, k: nat)
    requires k < |blocks|
    ensures HEAD + |blocks[k]| <= Footprint(blocks)
    ensures |blocks| > 1 ==> HEAD + |blocks[k]| < Footprint(blocks)
  {
    if k > 0 {
      FootprintMember(blocks[1..], k - 1);
    }
  }

  /** Such a block is always alone in the queue, so it is the first one that
      consume_all meets. */
  lemma WholeBufferIsAlone(q: Queue, k: nat)
    requires Valid(q) && k < |Contents(q)| && WholeBuffer(q, Contents(q)[k])
    ensures k == 0 && |Contents(q)| == 1
  {
    ContentsFootprint(q);
    FootprintMember(Contents(q), k);
  }

  /** consume_all: the queue it leaves, and whether it ran into its trap. */
  function Drain(q: Queue): (Queue, bool)
    requires Valid(q)
    decreases |Contents(q)|
  {
    EmptyTests(q);
    if !HaveData(q) || q.quit then (q, false)
    else
      FrontHeader(q);
      PopDropsFront(q);
      if Header(q.buf, q.rp) >= |q.buf| then (q, true) else Drain(Pop(q))
  }

  /** consume_all empties the queue if and only if no block fills the whole buffer
      (and the queue has not been told to quit); it never touches wp, the buffer, or
      space that a writer has reserved. */
  lemma {:induction false} DrainEmpties(q: Queue)
    requires Valid(q)
    ensures var (d, trapped) := Drain(q);
            && Valid(d) && d.buf == q.buf && d.wp == q.wp && d.user == q.user && d.quit == q.quit
            && Avail(d) >= Avail(q)
            && (q.quit ==> !trapped && d == q)
            && (!q.quit ==> (trapped <==> exists b :: b in Contents(q) && WholeBuffer(q, b)))
            && (!q.quit ==> (Contents(d) == [] <==> !trapped))
            && (trapped ==> d == q)
    decreases |Contents(q)|
  {
    EmptyTests(q);
    if HaveData(q) && !q.quit {
      FrontHeader(q);
      PopDropsFront(q);
      PopKeepsSpace(q);
      var all := Contents(q);
      assert forall b :: b in all <==> b == all[0] || b in all[1..];
      if Header(q.buf, q.rp) >= |q.buf| {
        assert WholeBuffer(q, all[0]);
      } else {
        DrainEmpties(Pop(q));
        if b :| b in all && WholeBuffer(q, b) {
          var k :| 0 <= k < |all| && all[k] == b;
          WholeBufferIsAlone(q, k);
        }
      }
    }
  }

  /** Where query's walk stands: reading position and pending wrap point. */
  predicate OnWalk(q: Queue, rp: int, ring: int) {
    if ring == 0 then 0 <= rp <= q.wp <= |q.buf| && Tiled(q.buf, rp, q.wp)
    else 0 <= rp < ring <= |q.buf| && Tiled(q.buf, rp, ring) && 0 <= q.wp <= |q.buf| && Tiled(q.buf, 0, q.wp)
  }

  /** The blocks that query's walk has not counted yet. */
  function Uncounted(q: Queue, rp: int, ring: int): seq<Block>
    requires OnWalk(q, rp, ring)
  {
    if ring == 0 then Blocks(q.buf, rp, q.wp)
    else Blocks(q.buf, rp, ring) + Blocks(q.buf, 0, q.wp)
  }

  /** `num` blocks with `size` payload bytes have been counted so far. */
  ghost predicate Counted(q: Queue, rp: int, ring: int, num: nat, size: nat) {
    && Valid(q) && OnWalk(q, rp, ring)
    && num + |Uncounted(q, rp, ring)| == |Contents(q)|
    && size + Payload(Uncounted(q, rp, ring)) == Payload(Contents(q))
  }

  /** One turn of query's walk steps over exactly one block. */
  lemma WalkStep(q: Queue, rp: int, ring: int)
    requires OnWalk(q, rp, ring) && (rp != q.wp || ring != 0)
    ensures rp + HEAD <= |q.buf| && HEAD < Header(q.buf, rp) <= |q.buf|
    ensures Uncounted(q, rp, ring) != [] && |Uncounted(q, rp, ring)[0]| == Header(q.buf, rp) - HEAD
    ensures var next := rp + Header(q.buf, rp);
            if ring != 0 && next == ring then OnWalk(q, 0, 0) && Uncounted(q, 0, 0) == Uncounted(q, rp, ring)[1..]
            else OnWalk(q, next, ring) && Uncounted(q, next, ring) == Uncounted(q, rp, ring)[1..]
  {
    if ring == 0 {
      BlocksStep(q.buf, rp, q.wp);
    } else {
      BlocksStep(q.buf, rp, ring);
      var lower := Blocks(q.buf, 0, q.wp);
      DropFirst(Blocks(q.buf, rp, ring), lower);
      assert [] + lower == lower;
    }
  }

  lemma CountStep(q: Queue, rp: int, ring: int, num: nat, size: nat, rp': int, ring': int)
    requires Counted(q, rp, ring, num, size) && (rp != q.wp || ring != 0) && rp + HEAD <= |q.buf|
    requires (rp', ring') == var next := rp + Header(q.buf, rp);
                             if ring != 0 && next == ring then (0, 0) else (next, ring)
    ensures HEAD < Header(q.buf, rp) && Counted(q, rp', ring', num + 1, size + (Header(q.buf, rp) - HEAD))
    ensures num < |Contents(q)|
  {
    WalkStep(q, rp, ring);
  }
}
