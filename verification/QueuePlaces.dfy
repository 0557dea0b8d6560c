/** Where the queued blocks stand in the buffer.  A frame that a decoder has produced in place
    holds its own address, so it is only of use to a reader that is given the block where it
    was sent. */
module QueuePlaces {
  import opened Bytes
  import opened QueueLayout
  import opened Wrappers

  /** Payload offsets of the blocks stored between `lo` and `hi`. */
  function Offsets(buf: seq<Byte>, lo: int, hi: int): seq<int>
    requires 0 <= lo <= hi <= |buf| && Tiled(buf, lo, hi)
    decreases hi - lo
  {
    if lo == hi then [] else [lo + HEAD] + Offsets(buf, lo + Header(buf, lo), hi)
  }

  /** Payload offsets of the queued blocks, in the order in which they will be read. */
  function Places(q: Queue): seq<int>
    requires Valid(q)
  {
    if q.fillEnd == 0 then Offsets(q.buf, q.rp, q.wp)
    else Offsets(q.buf, q.rp, q.fillEnd) + Offsets(q.buf, 0, q.wp)
  }

  /** The bytes from offset `at` on are those of the block. */
  predicate StandsAt(buf: seq<Byte>, at: int, block: Block) {
    0 <= at && at + |block| <= |buf| && buf[at..at + |block|] == block
  }

  lemma {:induction false} OffsetsStand(buf: seq<Byte>, lo: int, hi: int)
    requires 0 <= lo <= hi <= |buf| && Tiled(buf, lo, hi)
    ensures |Offsets(buf, lo, hi)| == |Blocks(buf, lo, hi)|
    ensures forall k :: 0 <= k < |Blocks(buf, lo, hi)| ==>
                          StandsAt(buf, Offsets(buf, lo, hi)[k], Blocks(buf, lo, hi)[k])
    decreases hi - lo
  {
    if lo < hi {
      OffsetsStand(buf, lo + Header(buf, lo), hi);
    }
  }

  /** Every queued block stands, byte for byte, at its place, and the front one at rp. */
  lemma PlacesStand(q: Queue)
    requires Valid(q)
    ensures |Places(q)| == |Contents(q)|
    ensures forall k :: 0 <= k < |Contents(q)| ==> StandsAt(q.buf, Places(q)[k], Contents(q)[k])
    ensures HaveData(q) ==> Places(q) != [] && Places(q)[0] == q.rp + HEAD
  {
    if q.fillEnd == 0 {
      OffsetsStand(q.buf, q.rp, q.wp);
    } else {
      OffsetsStand(q.buf, q.rp, q.fillEnd);
      OffsetsStand(q.buf, 0, q.wp);
    }
  }

  lemma {:induction false} OffsetsFrame(buf: seq<Byte>, other: seq<Byte>, lo: int, hi: int)
    requires 0 <= lo <= hi <= |buf| == |other| && Tiled(buf, lo, hi)
    requires forall i :: lo <= i < hi ==> buf[i] == other[i]
    ensures Tiled(other, lo, hi) && Offsets(other, lo, hi) == Offsets(buf, lo, hi)
    decreases hi - lo
  {
    if lo < hi {
      SameSlice(buf, other, lo, lo + HEAD);
      assert Header(other, lo) == Header(buf, lo);
      OffsetsFrame(buf, other, lo + Header(buf, lo), hi);
      assert Tiled(other, lo, hi);
    }
  }

  lemma {:induction false} OffsetsJoin(buf: seq<Byte>, a: int, b: int, c: int)
    requires 0 <= a <= b <= c <= |buf| && Tiled(buf, a, b) && Tiled(buf, b, c)
    ensures Tiled(buf, a, c) && Offsets(buf, a, c) == Offsets(buf, a, b) + Offsets(buf, b, c)
    decreases b - a
  {
    BlocksJoin(buf, a, b, c);
    if a < b {
      OffsetsJoin(buf, a + Header(buf, a), b, c);
    }
  }

  lemma WrapKeepsPlaces(q: Queue, need: int)
    requires Valid(q) && need <= |q.buf|
    ensures Valid(Wrap(q, need)) && Places(Wrap(q, need)) == Places(q)
  {
    WrapKeeps(q, need);
    assert Offsets(q.buf, 0, 0) == [];
  }

  /** What the owner of a reservation writes moves no block. */
  lemma WritingKeepsPlaces(q: Queue, n: nat, other: seq<Byte>)
    requires Valid(q) && Reserved(q, n) && |other| == |q.buf|
    requires forall i :: 0 <= i < |other| && !(q.wp <= i < q.wp + HEAD + n) ==> other[i] == q.buf[i]
    ensures Valid(q.(buf := other)) && Places(q.(buf := other)) == Places(q)
  {
    ReservationIsDisjoint(q, n, other);
    if q.fillEnd == 0 {
      OffsetsFrame(q.buf, other, q.rp, q.wp);
    } else {
      OffsetsFrame(q.buf, other, q.rp, q.fillEnd);
      OffsetsFrame(q.buf, other, 0, q.wp);
    }
  }

  lemma OffsetAppended(buf: seq<Byte>, lo: nat, at: nat, m: nat, s: seq<Byte>, end: nat)
    requires lo <= at && 0 < m && end == at + HEAD + m <= |buf| <= I32_MAX && Tiled(buf, lo, at)
    requires s == Put(buf, at, EncodeU32(m + HEAD))
    ensures Tiled(s, lo, end) && Offsets(s, lo, end) == Offsets(buf, lo, at) + [at + HEAD]
  {
    BlockAppended(buf, lo, at, m, s, end);
    BlockWritten(buf, at, m);
    OffsetsFrame(buf, s, lo, at);
    OffsetsJoin(s, lo, at, end);
    OffsetsStand(s, at, end);
  }

  lemma FlatPlaces(q: Queue)
    requires q.fillEnd == 0 && Pointers(q) && Tiled(q.buf, q.rp, q.wp)
    ensures Valid(q) && Places(q) == Offsets(q.buf, q.rp, q.wp)
  {
  }

  lemma WrappedPlaces(q: Queue)
    requires q.fillEnd != 0 && Pointers(q) && Tiled(q.buf, q.rp, q.fillEnd) && Tiled(q.buf, 0, q.wp)
    ensures Valid(q) && Places(q) == Offsets(q.buf, q.rp, q.fillEnd) + Offsets(q.buf, 0, q.wp)
  {
  }

  lemma SendFlatPlaces(q: Queue, m: nat, s: Queue)
    requires Valid(q) && q.fillEnd == 0 && m > 0 && CanSend(q, m) && s == Send(q, m)
    ensures Valid(s) && Places(s) == Places(q) + [q.wp + HEAD]
  {
    OffsetAppended(q.buf, q.rp, q.wp, m, s.buf, s.wp);
    FlatPlaces(s);
  }

  lemma SendWrappedPlaces(q: Queue, m: nat, s: Queue)
    requires Valid(q) && q.fillEnd != 0 && m > 0 && CanSend(q, m) && s == Send(q, m)
    ensures Valid(s) && Places(s) == Places(q) + [q.wp + HEAD]
  {
    OffsetsFrame(q.buf, s.buf, q.rp, q.fillEnd);
    OffsetAppended(q.buf, 0, q.wp, m, s.buf, s.wp);
    WrappedPlaces(s);
    Associative(Offsets(q.buf, q.rp, q.fillEnd), Offsets(q.buf, 0, q.wp), [q.wp + HEAD]);
  }

  /** A block that is sent stands where its reservation began. */
  lemma SendPlaces(q: Queue, m: nat)
    requires Valid(q) && m > 0 && CanSend(q, m)
    ensures Valid(Send(q, m)) && Places(Send(q, m)) == Places(q) + [q.wp + HEAD]
  {
    if q.fillEnd == 0 {
      SendFlatPlaces(q, m, Send(q, m));
    } else {
      SendWrappedPlaces(q, m, Send(q, m));
    }
  }

  lemma PopFlatPlaces(q: Queue, p: Queue)
    requires Valid(q) && q.fillEnd == 0 && q.rp + HEAD <= q.wp
    requires p == q.(rp := q.rp + Header(q.buf, q.rp), filled := q.filled - Header(q.buf, q.rp))
    ensures Valid(p) && Places(p) == Places(q)[1..]
  {
    BlocksStep(q.buf, q.rp, q.wp);
  }

  lemma PopWrappedPlaces(q: Queue, next: int, p: Queue)
    requires Valid(q) && q.fillEnd != 0 && q.rp < next <= q.fillEnd && Tiled(q.buf, next, q.fillEnd)
    requires p == if next == q.fillEnd then q.(fillEnd := 0, rp := 0, filled := q.wp)
                  else q.(rp := next, filled := q.fillEnd - next + q.wp)
    requires Offsets(q.buf, q.rp, q.fillEnd) != []
    requires Offsets(q.buf, q.rp, q.fillEnd)[1..] == Offsets(q.buf, next, q.fillEnd)
    ensures Valid(p) && Places(p) == Places(q)[1..]
  {
    var lower := Offsets(q.buf, 0, q.wp);
    WrappedPlaces(q);
    DropFirst(Offsets(q.buf, q.rp, q.fillEnd), lower);
    if next == q.fillEnd {
      FlatPlaces(p);
      assert [] + lower == lower;
    } else {
      WrappedPlaces(p);
    }
  }

  /** Dropping the front block moves no other one, also when rp and fill_end are reset. */
  lemma PopPlaces(q: Queue)
    requires Valid(q) && HaveData(q)
    ensures q.rp + HEAD <= |q.buf| && Valid(Pop(q)) && Places(Pop(q)) == Places(q)[1..]
  {
    if q.fillEnd == 0 {
      PopFlatPlaces(q, Pop(q));
    } else {
      BlocksStep(q.buf, q.rp, q.fillEnd);
      PopWrappedPlaces(q, q.rp + Header(q.buf, q.rp), Pop(q));
    }
  }
}
