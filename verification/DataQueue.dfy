/** The data queue of data_queue.c as an object: the fields of data_queue_t over one byte
    array, and one method per critical section.  Every method is tied to the function of
    QueueLayout that specifies it and to its effect on the FIFO of blocks. */
module DataQueueClass {
  import opened Bytes
  import opened QueueLayout

  /** What one pass of get_buffer's loop yields. */
  datatype Reservation = Null | MustWait | Buffer(at: nat)

  /** What one pass of read_lock's loop yields. */
  datatype Front = Quit | NoData | Data(at: nat, size: nat)

  class DataQueue {
    const buffer: array<Byte>
    var fillEnd: int
    var wp: int
    var rp: int
    var filled: int
    var user: int
    var quit: bool

    function State(): Queue
      reads this, buffer
    {
      Queue(buffer[..], fillEnd, wp, rp, filled, user, quit)
    }

    ghost predicate Valid()
      reads this, buffer
    {
      QueueLayout.Valid(State())
    }

    ghost function Contents(): seq<Block>
      reads this, buffer
      requires Valid()
    {
      QueueLayout.Contents(State())
    }

    constructor (size: nat)
      requires size <= I32_MAX
      ensures Valid() && Contents() == [] && fresh(buffer) && buffer.Length == size && !quit && user == 0
    {
      buffer := new Byte[size];
      fillEnd, wp, rp, filled, user, quit := 0, 0, 0, 0, 0, false;
    }

    method AvailableSize() returns (avail: int)
      ensures avail == Avail(State())
    {
      if wp > rp {
        return buffer.Length - wp;
      }
      if wp == rp {
        if fillEnd != 0 {
          return 0;
        }
        return buffer.Length - wp;
      }
      return rp - wp;
    }

    /** Whatever is announced here (and is not 0) is granted by GetBuffer at once. */
    method GetAvailable() returns (avail: int)
      requires Valid()
      ensures avail == QueueLayout.GetAvailable(State()) && 0 <= avail <= buffer.Length
      ensures forall n: nat :: 0 < n <= avail ==> Granted(State(), n)
      ensures Contents() == [] ==> avail == if buffer.Length < 4 then 0 else buffer.Length - 4
      ensures Contents() != [] && fillEnd == 0 ==>
                avail == if buffer.Length < wp + 4 then 0 else buffer.Length - wp - 4
      ensures fillEnd != 0 ==> avail == if rp < wp + 4 then 0 else rp - wp - 4
    {
      AnnouncedExactly(State());
      if wp == rp && fillEnd == 0 {
        avail := buffer.Length;
      } else {
        avail := AvailableSize();
      }
      if avail >= HEAD {
        avail := avail - HEAD;
      } else {
        avail := 0;
      }
      EmptyTests(State());
      forall n: nat | 0 < n <= avail ensures Granted(State(), n) {
        AnnouncedIsGranted(State(), n);
      }
    }

    /** get_buffer up to the point where it returns or parks the writer. */
    method GetBuffer(n: nat) returns (r: Reservation)
      requires Valid() && n + HEAD <= I32_MAX
      modifies this
      ensures Valid() && Contents() == old(Contents()) && buffer[..] == old(buffer[..])
      ensures quit == old(quit) && filled == old(filled)
      ensures r == Null <==> n + HEAD > buffer.Length || quit
      ensures r == Null ==> State() == old(State())
      ensures r != Null ==> State() == Reserve(old(State()), n)
      ensures r.Buffer? <==> !quit && n + HEAD <= buffer.Length && Granted(old(State()), n)
      ensures r.Buffer? ==> Reserved(State(), n) && r.at == wp + HEAD && r.at + n <= buffer.Length
      ensures r.MustWait? ==> Contents() != [] && fillEnd != 0
    {
      var size := n + HEAD;
      if size > buffer.Length {
        return Null;
      }
      if quit {
        return Null;
      }
      var q0 := State();
      WrapKeeps(q0, size);
      var avail := AvailableSize();
      if avail < size && fillEnd == 0 {
        if wp == rp {
          wp, rp := 0, 0;
        }
        fillEnd := wp;
        wp := 0;
        avail := AvailableSize();
      }
      assert State() == Wrap(q0, size);
      user := user + 1;
      assert State() == Reserve(q0, n);
      EmptyTests(q0);
      if avail >= size {
        r := Buffer(wp + HEAD);
      } else {
        r := MustWait;
      }
    }

    /** The owner of a reservation copies bytes into it: no queued block is touched. */
    method Fill(ghost n: nat, at: nat, data: seq<Byte>)
      requires Valid() && Reserved(State(), n)
      requires wp + HEAD <= at && at + |data| <= wp + HEAD + n
      modifies buffer
      ensures at + |data| <= buffer.Length && State() == old(State()).(buf := Put(old(buffer[..]), at, data))
      ensures Valid() && Contents() == old(Contents()) && Reserved(State(), n)
    {
      ghost var before := buffer[..];
      ReservationIsDisjoint(State(), n, before);
      for i := 0 to |data|
        invariant forall k :: 0 <= k < i ==> buffer[at + k] == data[k]
        invariant forall k :: 0 <= k < at || at + i <= k < buffer.Length ==> buffer[k] == before[k]
      {
        buffer[at + i] := data[i];
      }
      assert buffer[..] == Put(before, at, data);
      ReservationIsDisjoint(old(State()), n, buffer[..]);
    }

    method StoreU32(at: nat, n: nat)
      requires n < U32_RANGE && at + 4 <= buffer.Length
      modifies buffer
      ensures buffer[..] == Put(old(buffer[..]), at, EncodeU32(n))
    {
      var e := EncodeU32(n);
      buffer[at], buffer[at + 1], buffer[at + 2], buffer[at + 3] := e[0], e[1], e[2], e[3];
      assert forall i :: 0 <= i < buffer.Length ==> buffer[..][i] == Put(old(buffer[..]), at, e)[i] by {
        assert Put(old(buffer[..]), at, e)[at..at + 4] == e;
      }
    }

    /** The successful branch of send_buffer: the header is stored and wp moves on. */
    method Commit(m: nat)
      requires Valid() && 0 < m && m + HEAD <= I32_MAX && CanSend(State(), m)
      modifies this, buffer
      ensures State() == Send(old(State()), m)
    {
      var size := m + HEAD;
      StoreU32(wp, size);
      if size < 0 || size > buffer.Length {
        assert false;
      }
      wp := wp + size;
      filled := filled + size;
      user := user - 1;
    }

    /** Sending appends the first m reserved bytes as one block; size 0 cancels. */
    method SendBuffer(m: nat) returns (ret: int)
      requires Valid() && m + HEAD <= I32_MAX
      modifies this, buffer
      ensures Valid() && State() == Send(old(State()), m)
      ensures ret == 0 <==> m == 0 || old(wp) + 4 + m <= if old(fillEnd) == 0 then buffer.Length else old(rp)
      ensures ret == 0 || ret == -1
      ensures Contents() == old(Contents()) + Sent(old(State()), m)
    {
      ghost var q := State();
      CanSendExactly(q, m);
      SendAppends(q, m);
      ret := 0;
      if m == 0 {
        user := user - 1;
      } else {
        var avail := AvailableSize();
        if avail >= m + HEAD {
          Commit(m);
        } else {
          user := user - 1;
          ret := -1;
        }
      }
      assert State() == Send(q, m);
    }

    /** Loads a block length and applies the corruption test of the source, whose trap
        is a store to address 0: with a length that fits the buffer it cannot be reached. */
    method LoadLength(at: nat) returns (len: nat)
      requires at + HEAD <= buffer.Length <= I32_MAX && Header(buffer[..], at) <= buffer.Length
      ensures len == Header(buffer[..], at)
    {
      len := LoadU32(buffer[..], at);
      if AsI32(len) < 0 || AsI32(len) > buffer.Length {
        assert false;
      }
    }

    /** One pass of read_lock's loop; the trap on a corrupted length cannot be reached. */
    method ReadLock() returns (r: Front)
      requires Valid()
      modifies this`user
      ensures State() == old(State()).(user := user) && Valid() && Contents() == old(Contents())
      ensures user == if r == Quit then old(user) else old(user) + 1
      ensures r.Quit? <==> quit
      ensures r.NoData? <==> !quit && Contents() == []
      ensures r.Data? ==> r.at == rp + HEAD && r.at + r.size <= buffer.Length
      ensures r.Data? ==> Contents() != [] && buffer[r.at..r.at + r.size] == Contents()[0]
    {
      ghost var q := State();
      EmptyTests(q);
      if quit {
        return Quit;
      }
      if filled == 0 {
        user := user + 1;
        return NoData;
      }
      FrontHeader(q);
      var curRp := if filled <= wp then wp - filled else wp + fillEnd - filled;
      var size := LoadLength(curRp);
      user := user + 1;
      r := Data(curRp + HEAD, size - HEAD);
    }

    /** Releasing the front block without consuming it: it will be read again. */
    method PeekUnlock()
      requires Valid()
      modifies this`user
      ensures State() == QueueLayout.PeekUnlock(old(State())) && Valid() && Contents() == old(Contents())
    {
      user := user - 1;
    }

    method HaveData() returns (b: bool)
      requires Valid()
      ensures b <==> !quit && Contents() != []
    {
      EmptyTests(State());
      b := !quit && !(wp == rp && fillEnd == 0);
    }

    /** Drops the front block; shared by read_unlock and consume_all. */
    method PopFront()
      requires Valid() && QueueLayout.HaveData(State())
      modifies this`rp, this`fillEnd, this`filled
      ensures Valid() && State() == Pop(old(State())) && Contents() == old(Contents())[1..]
    {
      ghost var q := State();
      FrontHeader(q);
      PopDropsFront(q);
      var size := LoadLength(rp);
      rp := rp + size;
      filled := filled - size;
      if fillEnd != 0 && rp >= fillEnd {
        fillEnd := 0;
        rp := 0;
      }
      assert State() == Pop(q);
    }

    /** Drops the front block and the user; without any block it does neither. */
    method ReadUnlock()
      requires Valid()
      modifies this
      ensures Valid() && State() == QueueLayout.ReadUnlock(old(State()))
      ensures Contents() == if old(Contents()) == [] then [] else old(Contents())[1..]
      ensures user == if old(Contents()) == [] then old(user) else old(user) - 1
      ensures wp == old(wp) && buffer[..] == old(buffer[..])
    {
      EmptyTests(State());
      if !(wp == rp && fillEnd == 0) {
        PopFront();
        user := user - 1;
      }
    }

    /** Drains the queue, except that a block filling the whole buffer runs into the trap
        (the result true): exactly then the source stores to address 0. */
    method ConsumeAll() returns (trapped: bool)
      requires Valid()
      modifies this
      ensures Valid() && (State(), trapped) == Drain(old(State()))
    {
      EmptyTests(State());
      trapped := false;
      while !(wp == rp && fillEnd == 0)
        invariant Valid() && !trapped && Drain(State()) == Drain(old(State()))
        decreases |Contents()|
      {
        ghost var q := State();
        EmptyTests(q);
        if quit {
          break;
        }
        FrontHeader(q);
        var size := LoadLength(rp);
        if size >= buffer.Length {
          trapped := true;
          break;
        }
        PopFront();
        PopDropsFront(q);
      }
    }

    /** Counts the blocks and the payload bytes by walking the headers. */
    method Query() returns (num: nat, size: nat)
      requires Valid()
      ensures num == |Contents()| && size == Payload(Contents())
    {
      num, size := 0, 0;
      ghost var q, total := State(), |Contents()|;
      EmptyTests(q);
      if !(wp == rp && fillEnd == 0) {
        var pos, ring := rp, fillEnd;
        while pos != wp || ring != 0
          invariant total == |QueueLayout.Contents(q)| && Counted(q, pos, ring, num, size)
          decreases total - num
        {
          WalkStep(q, pos, ring);
          ghost var pos0, ring0 := pos, ring;
          var len := LoadLength(pos);
          pos := pos + len;
          if ring != 0 && pos == ring {
            ring := 0;
            pos := 0;
          }
          CountStep(q, pos0, ring0, num, size, pos, ring);
          num := num + 1;
          size := size + (len - HEAD);
        }
      }
    }

    /** The first half of wakeup: announce the end to every user. */
    method Wakeup()
      requires Valid()
      modifies this`quit
      ensures State() == old(State()).(quit := true) && Valid() && Contents() == old(Contents())
    {
      quit := true;
    }
  }
}
