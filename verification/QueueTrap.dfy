/** The trap of consume_all is reached: a block that fills the whole buffer, as the writer may
    send, makes the flusher store to address 0. */
module QueueTrap {
  import opened Bytes
  import opened QueueLayout
  import opened QueuePromises
  import opened QueueRuns
  import opened QueueThreads

  /** Reserving and sending four bytes of a buffer of eight. */
  lemma WholeBufferSent(q: Queue)
    requires q == Init(q.buf) && |q.buf| == 8
    ensures Granted(q, 4) && Reserve(q, 4) == q.(user := 1)
    ensures var p := Send(q.(user := 1), 4);
            && CanSend(q.(user := 1), 4) && p == Queue(p.buf, 0, 8, 0, 8, 0, false)
            && |p.buf| == 8 && Header(p.buf, 0) == 8
  {
    BlockWritten(q.buf, 0, 4);
    var p := Send(q.(user := 1), 4);
    assert Tiled(p.buf, 0, 8) && Blocks(p.buf, 0, 8) != [];
    assert p.buf[0..4] == EncodeU32(8);
    StoreThenLoad(8);
  }

  lemma WriterFillsBuffer(buf: seq<Byte>) returns (tr: seq<Sys>)
    requires |buf| == 8
    ensures Run(tr)
    ensures var s := Last(tr);
            && s.w == WNotify && s.r == RIdle && s.f == FIdle && s.c.lock == OfWriter
            && |s.q.buf| == 8 && s.q == Queue(s.q.buf, 0, 8, 0, 8, 0, false) && Header(s.q.buf, 0) == 8
  {
    var x := Sys(Init(buf), Sync(Free, false, false, false), WIdle, RIdle, FIdle, KIdle, Log([], [], false));
    WholeBufferSent(x.q);
    tr := [x];
    x := x.(w := WEnter(4));
    tr := Extend(tr, x);
    x := x.(w := WTry(4), c := x.c.(lock := OfWriter));
    tr := Extend(tr, x);
    x := x.(q := x.q.(user := 1), w := WHold(4), c := x.c.(lock := Free));
    tr := Extend(tr, x);
    x := x.(w := WSubmit(4, 4));
    tr := Extend(tr, x);
    x := x.(w := WSend(4, 4), c := x.c.(lock := OfWriter));
    tr := Extend(tr, x);
    x := x.(q := Send(x.q, 4), w := WNotify, log := x.log.(sent := x.log.sent + Sent(x.q, 4)));
    tr := Extend(tr, x);
  }

  /** A run from the start to the trap. */
  lemma TrappedRun() returns (tr: seq<Sys>)
    ensures Run(tr) && tr[|tr| - 1].f == FTrapped
  {
    tr := WriterFillsBuffer([0, 0, 0, 0, 0, 0, 0, 0]);
    var x := Last(tr);
    x := x.(w := WRelease, c := x.c.(arrive := true));
    tr := Extend(tr, x);
    x := x.(w := WIdle, c := x.c.(free := true, lock := Free));
    tr := Extend(tr, x);
    x := x.(f := FLoop, c := x.c.(lock := OfFlusher));
    tr := Extend(tr, x);
    x := x.(f := FTrapped);
    tr := Extend(tr, x);
  }
}
