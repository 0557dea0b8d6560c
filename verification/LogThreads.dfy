/** The history log under concurrency: the tracing code appends records to the ring (one
    producer, because every caller holds the trace mutex), the saving thread writes full
    slices to the file byte by byte without the ring's mutex, and stop asks it to finish. */
module LogThreads {
  import opened Bytes
  import opened LogRing
  import opened LogRecords
  import opened Wrappers

  const MAX_RETRY := 5

  datatype Producer =
    | PIdle
    | PPoll(e: Event, retry: nat)                  // his_wait_for_enough
    | PWrite(rest: seq<Byte>, next: seq<Byte>)     // top of his_write's loop; `next` is the second buffer
    | PCopy(rest: seq<Byte>, next: seq<Byte>)      // saw a free slice, wants the mutex

  datatype Saver =
    | SCheck                        // about to test n
    | SStop                         // saw n == 0, about to test stopping
    | SHead                         // saw n != 0, about to compute the head slice
    | SWrite(head: nat, k: nat)     // k bytes of slice head are in the file
    | SRetire(head: nat)            // the whole slice is in the file, about to decrement n
    | STail(left: Left, k: nat)     // stopping: k bytes of the unfinished slice are in the file
    | SDone(left: Left)

  /** What the saver finds when it leaves its loop: the unfinished slice and its length, for which
      it writes the file's end; and, for the record, how many full slices are waiting, what the
      tracing code has still to copy of its record, and how many records are accepted. */
  datatype Left = Left(slice: nat, len: nat, n: nat, pending: seq<Byte>, count: nat)

  /** `saved` is the part of the file that belongs to retired slices.  `busy` records whether
      stop was called within a tracing call, `torn` whether the saver was then between its two
      tests with a full slice waiting. */
  datatype Files = Files(file: seq<Byte>, saved: seq<Byte>)
  datatype Stop = Stop(stopping: bool, busy: bool, torn: bool)
  datatype Sys = Sys(ring: Ring, f: Files, p: Producer, s: Saver, stop: Stop, accepted: seq<Event>)

  ghost predicate Start(x: Sys) {
    && WellFormed(x.ring) && x.ring.n == 0 && x.ring.filled == 0
    && x.f == Files([], []) && x.p == PIdle && x.s == SCheck && x.stop == Stop(false, false, false) && x.accepted == []
  }

  ghost predicate ProducerStep(x: Sys, y: Sys)
    requires WellFormed(x.ring)
  {
    match x.p
    case PIdle => !x.stop.stopping && y.p.PPoll? && Fits(y.p.e) && y.p.retry == MAX_RETRY && y == x.(p := y.p)
    case PPoll(e, retry) =>
      && Fits(e)
      && if retry == 0 then y == x.(p := PIdle)
         else if Enough(x.ring, |Encode(e)|) then
           y == x.(p := PWrite(EncodeHead(e), EncodeTail(e)), accepted := x.accepted + [e])
         else y == x.(p := PPoll(e, retry - 1))
    case PWrite(rest, next) =>
      if rest == [] then y == x.(p := if next == [] then PIdle else PWrite(next, []))
      else x.ring.n < SLICES && y == x.(p := PCopy(rest, next))
    case PCopy(rest, next) =>
      y == x.(ring := Copy(x.ring, rest), p := PWrite(rest[Taken(x.ring, rest)..], next))
  }

  ghost predicate SaverStep(x: Sys, y: Sys)
    requires WellFormed(x.ring)
  {
    match x.s
    case SCheck => y == x.(s := if x.ring.n > 0 then SHead else SStop)
    case SStop => y == x.(s := if x.stop.stopping then STail(Leaving(x), 0) else SCheck)
    case SHead => y == x.(s := SWrite(Head(x.ring), 0))
    case SWrite(head, k) =>
      && head < SLICES
      && if k < x.ring.size then
           y == x.(f := x.f.(file := x.f.file + [x.ring.cache[head][k]]), s := SWrite(head, k + 1))
         else y == x.(s := SRetire(head))
    case SRetire(head) =>
      x.ring.n > 0 && y == x.(ring := Retire(x.ring), f := x.f.(saved := x.f.file), s := SCheck)
    case STail(left, k) =>
      && left.slice < SLICES && left.len <= x.ring.size
      && if k < left.len then
           y == x.(f := x.f.(file := x.f.file + [x.ring.cache[left.slice][k]]), s := STail(left, k + 1))
         else y == x.(s := SDone(left))
    case SDone(_) => false
  }

  function Leaving(x: Sys): Left {
    Left(x.ring.wp, x.ring.filled, x.ring.n, Pending(x.p), |x.accepted|)
  }

  /** stop_mem_his.  Its caller has switched tracing off, so that no tracing call begins from now
      on, but does not wait for one that is under way. */
  ghost predicate StopStep(x: Sys, y: Sys) {
    !x.stop.stopping && y == x.(stop := Stop(true, x.p != PIdle, x.s == SStop && x.ring.n > 0))
  }

  ghost predicate Next(x: Sys, y: Sys)
    requires WellFormed(x.ring)
  {
    ProducerStep(x, y) || SaverStep(x, y) || StopStep(x, y)
  }

  // ----- the invariant -----

  function Pending(p: Producer): seq<Byte> {
    if p.PWrite? || p.PCopy? then p.rest + p.next else []
  }

  /** What the file holds beyond the retired slices. */
  predicate FileInv(x: Sys)
    requires WellFormed(x.ring)
  {
    match x.s
    case SWrite(head, k) =>
      x.ring.n > 0 && head == Head(x.ring) && k <= x.ring.size && x.f.file == x.f.saved + x.ring.cache[head][..k]
    case SRetire(head) =>
      x.ring.n > 0 && head == Head(x.ring) && x.f.file == x.f.saved + x.ring.cache[head]
    case STail(left, k) =>
      left.slice < SLICES && k <= left.len <= x.ring.size && x.f.file == x.f.saved + x.ring.cache[left.slice][..k]
    case SDone(left) =>
      left.slice < SLICES && left.len <= x.ring.size && x.f.file == x.f.saved + x.ring.cache[left.slice][..left.len]
    case SHead => x.ring.n > 0 && x.f.file == x.f.saved
    case _ => x.f.file == x.f.saved
  }

  /** The refinement: retired bytes, ring and bytes still to be copied make up the
      concatenation of all accepted records. */
  ghost predicate StreamInv(x: Sys)
    requires WellFormed(x.ring)
  {
    && (forall e :: e in x.accepted ==> Fits(e))
    && EncodeAll(x.accepted) == x.f.saved + (Held(x.ring) + Pending(x.p))
  }

  predicate HasLeft(s: Saver) {
    s.STail? || s.SDone?
  }

  predicate StopInv(x: Sys) {
    && (x.stop.stopping && !x.stop.busy ==> x.p == PIdle)
    && (x.p.PPoll? ==> Fits(x.p.e))
    && (x.p.PCopy? ==> x.ring.n < SLICES && x.p.rest != [])
    && (HasLeft(x.s) ==> x.stop.stopping)
    && (HasLeft(x.s) && !x.stop.busy ==> x.s.left.pending == [] && x.s.left.count == |x.accepted|)
    && (HasLeft(x.s) && !x.stop.busy ==> (x.s.left.n > 0 <==> x.stop.torn))
    && (x.stop.stopping && x.s.SStop? && !x.stop.busy ==> (x.ring.n > 0 <==> x.stop.torn))
    && (x.s.SCheck? || x.s.SHead? || x.s.SWrite? || x.s.SRetire? ==> !x.stop.torn)
    && (!x.stop.stopping ==> !x.stop.torn && !x.stop.busy)
  }

  /** Bytes that are logged and not retired. */
  function Waiting(x: Sys): nat
    requires WellFormed(x.ring)
  {
    |Held(x.ring)| + |Pending(x.p)|
  }

  /** The slice that the saver has taken when it left its loop is behind the place where the next
      byte goes. */
  predicate Behind(left: Left, r: Ring) {
    && left.n <= r.n && left.slice < SLICES && left.len < r.size
    && r.wp == (left.slice + (r.n - left.n)) % SLICES
    && (r.n == left.n ==> left.len <= r.filled)
  }

  /** What is waiting now is at least what was waiting, and a byte for each new record; and
      without an unfinished or a new record nothing has changed. */
  predicate Accounts(left: Left, r: Ring, waiting: nat, pending: nat, count: nat) {
    && left.count <= count && waiting >= left.len + |left.pending| + (count - left.count)
    && (left.n > 0 ==> waiting > left.len)
    && (left.n == 0 && left.pending == [] && count == left.count ==>
          r.n == 0 && r.filled == left.len && pending == 0)
  }

  predicate LeftInv(x: Sys)
    requires WellFormed(x.ring)
  {
    HasLeft(x.s) ==>
      Behind(x.s.left, x.ring) && Accounts(x.s.left, x.ring, Waiting(x), |Pending(x.p)|, |x.accepted|)
  }

  ghost predicate Inv(x: Sys) {
    WellFormed(x.ring) && FileInv(x) && StreamInv(x) && StopInv(x) && LeftInv(x)
  }

  lemma StartInv(x: Sys)
    requires Start(x)
    ensures Inv(x)
  {
  }

  lemma CopyKeepsInv(x: Sys, y: Sys)
    requires Inv(x) && x.p.PCopy? && ProducerStep(x, y)
    ensures Inv(y)
  {
    CopyKeepsStream(x, y);
    CopyKeepsFile(x, y);
    CopyKeepsLeft(x, y);
    assert StopInv(y);
  }

  /** The slice that the saver has taken when it left its loop is not written to before its
      end. */
  lemma TakenSliceStays(x: Sys, y: Sys)
    requires WellFormed(x.ring) && LeftInv(x) && HasLeft(x.s)
    requires x.p.PCopy? && x.ring.n < SLICES && ProducerStep(x, y)
    ensures x.s.left.slice < SLICES && x.s.left.len < x.ring.size && WellFormed(y.ring)
    ensures y.ring.cache[x.s.left.slice][..x.s.left.len] == x.ring.cache[x.s.left.slice][..x.s.left.len]
  {
    var left, w := x.s.left, x.ring.wp;
    var fill := Taken(x.ring, x.p.rest);
    CopyCache(x.ring, x.p.rest);
    if w == left.slice {
      assert x.ring.n == left.n;
      assert y.ring.cache[w][..left.len] == y.ring.cache[w][..x.ring.filled + fill][..left.len];
    }
  }

  lemma CopyKeepsFile(x: Sys, y: Sys)
    requires WellFormed(x.ring) && FileInv(x) && LeftInv(x)
    requires x.p.PCopy? && x.ring.n < SLICES && ProducerStep(x, y)
    ensures WellFormed(y.ring) && FileInv(y)
  {
    CopyCache(x.ring, x.p.rest);
    if HasLeft(x.s) {
      TakenSliceStays(x, y);
      var left := x.s.left;
      var k := if x.s.STail? then x.s.k else left.len;
      var a, b := x.ring.cache[left.slice], y.ring.cache[left.slice];
      assert b[..k] == b[..left.len][..k] == a[..left.len][..k] == a[..k];
    }
  }

  lemma CopyKeepsBehind(left: Left, r: Ring, data: seq<Byte>)
    requires WellFormed(r) && r.n < SLICES && Behind(left, r)
    ensures Behind(left, Copy(r, data))
  {
  }

  lemma CopyKeepsLeft(x: Sys, y: Sys)
    requires WellFormed(x.ring) && LeftInv(x) && StopInv(x) && x.p.PCopy? && ProducerStep(x, y)
    ensures WellFormed(y.ring) && LeftInv(y)
  {
    CopyAppends(x.ring, x.p.rest);
    CopyKeepsWaiting(x, y);
    if HasLeft(x.s) {
      CopyKeepsBehind(x.s.left, x.ring, x.p.rest);
      assert Pending(x.p) != [];
    }
  }

  lemma CopyKeepsWaiting(x: Sys, y: Sys)
    requires WellFormed(x.ring) && x.ring.n < SLICES && x.p.PCopy? && ProducerStep(x, y)
    ensures WellFormed(y.ring) && Waiting(y) == Waiting(x)
  {
    CopyAppends(x.ring, x.p.rest);
  }

  lemma CopyKeepsStream(x: Sys, y: Sys)
    requires WellFormed(x.ring) && StreamInv(x) && x.p.PCopy? && x.ring.n < SLICES && ProducerStep(x, y)
    ensures WellFormed(y.ring) && StreamInv(y)
  {
    var rest := x.p.rest;
    var fill := Taken(x.ring, rest);
    CopyAppends(x.ring, rest);
    assert rest == rest[..fill] + rest[fill..];
    Regroup(Held(x.ring), rest[..fill], rest[fill..], x.p.next);
  }

  lemma Regroup(a: seq<Byte>, b: seq<Byte>, c: seq<Byte>, d: seq<Byte>)
    ensures a + ((b + c) + d) == (a + b) + (c + d)
  {
  }

  lemma AcceptKeepsLeft(x: Sys, y: Sys)
    requires WellFormed(x.ring) && LeftInv(x) && x.p.PPoll? && y.p.PWrite? && ProducerStep(x, y)
    ensures LeftInv(y)
  {
  }

  lemma AcceptKeepsInv(x: Sys, y: Sys)
    requires Inv(x) && x.p.PPoll? && y.p.PWrite? && ProducerStep(x, y)
    ensures Inv(y)
  {
    var e := x.p.e;
    AcceptKeepsLeft(x, y);
    EncodeAllAppend(x.accepted, e);
    Associative(x.f.saved, Held(x.ring), Encode(e));
    assert Held(x.ring) + [] == Held(x.ring);
  }

  lemma ProducerKeepsInv(x: Sys, y: Sys)
    requires Inv(x) && ProducerStep(x, y)
    ensures Inv(y)
  {
    if x.p.PCopy? {
      CopyKeepsInv(x, y);
    } else if x.p.PPoll? && y.p.PWrite? {
      AcceptKeepsInv(x, y);
    } else if x.p.PWrite? && x.p.rest == [] {
      BufferKeepsInv(x, y);
    } else {
      PollKeepsInv(x, y);
    }
  }

  /** From the first buffer of a record to the second, or to the end. */
  lemma BufferKeepsInv(x: Sys, y: Sys)
    requires Inv(x) && x.p.PWrite? && x.p.rest == [] && ProducerStep(x, y)
    ensures Inv(y)
  {
    assert [] + x.p.next == x.p.next && x.p.next + [] == x.p.next;
    assert Pending(y.p) == Pending(x.p);
  }

  /** What copies and accepts nothing. */
  lemma PollKeepsInv(x: Sys, y: Sys)
    requires Inv(x) && ProducerStep(x, y) && !x.p.PCopy?
    requires x.p.PPoll? ==> !y.p.PWrite?
    requires x.p.PWrite? ==> x.p.rest != []
    ensures Inv(y)
  {
    assert Pending(y.p) == Pending(x.p);
  }

  lemma {:induction false} FullLength(cache: seq<seq<Byte>>, head: nat, k: nat, size: nat)
    requires |cache| == SLICES && head < SLICES && forall i :: 0 <= i < SLICES ==> |cache[i]| == size
    ensures k > 0 ==> |Full(cache, head, k)| >= size
    decreases k
  {
    if k > 0 {
      FullLength(cache, (head + 1) % SLICES, k - 1, size);
      assert |Full(cache, head, k)| >= |cache[head]|;
    }
  }

  lemma HeldLength(r: Ring)
    requires WellFormed(r)
    ensures |Held(r)| >= r.filled && (r.n > 0 ==> |Held(r)| > r.filled)
  {
    FullLength(r.cache, Head(r), r.n, r.size);
  }

  lemma StopKeepsInv(x: Sys, y: Sys)
    requires Inv(x) && x.s.SStop? && SaverStep(x, y)
    ensures Inv(y)
  {
    assert x.f.saved + [] == x.f.saved;
    HeldLength(x.ring);
  }

  lemma RetireKeepsInv(x: Sys, y: Sys)
    requires Inv(x) && x.s.SRetire? && SaverStep(x, y)
    ensures Inv(y)
  {
    var full := x.ring.cache[x.s.head];
    RetireDrops(x.ring);
    Associative(full, Held(Retire(x.ring)), Pending(x.p));
    Associative(x.f.saved, full, Held(Retire(x.ring)) + Pending(x.p));
  }

  lemma TailKeepsInv(x: Sys, y: Sys)
    requires Inv(x) && x.s.STail? && SaverStep(x, y)
    ensures Inv(y)
  {
    var left, k := x.s.left, x.s.k;
    if k < left.len {
      TakeOneMore(x.ring.cache[left.slice], k);
      Associative(x.f.saved, x.ring.cache[left.slice][..k], [x.ring.cache[left.slice][k]]);
    }
  }

  lemma WriteKeepsInv(x: Sys, y: Sys)
    requires Inv(x) && x.s.SWrite? && SaverStep(x, y)
    ensures Inv(y)
  {
    var slice, k := x.ring.cache[x.s.head], x.s.k;
    if k < x.ring.size {
      TakeOneMore(slice, k);
      Associative(x.f.saved, slice[..k], [slice[k]]);
    } else {
      assert slice[..k] == slice;
    }
  }

  lemma SaverKeepsInv(x: Sys, y: Sys)
    requires Inv(x) && SaverStep(x, y)
    ensures Inv(y)
  {
    match x.s
    case SWrite(_, _) => WriteKeepsInv(x, y);
    case SRetire(_) => RetireKeepsInv(x, y);
    case STail(_, _) => TailKeepsInv(x, y);
    case SStop => StopKeepsInv(x, y);
    case SHead => assert x.f.saved + [] == x.f.saved;
    case SCheck =>
  }

  lemma NextKeepsInv(x: Sys, y: Sys)
    requires Inv(x) && Next(x, y)
    ensures Inv(y)
  {
    if ProducerStep(x, y) {
      ProducerKeepsInv(x, y);
    } else if SaverStep(x, y) {
      SaverKeepsInv(x, y);
    }
  }

  // ----- runs -----

  ghost predicate Run(tr: seq<Sys>) {
    && tr != [] && Start(tr[0])
    && forall i :: 0 <= i < |tr| - 1 ==> StepAt(tr, i)
  }

  ghost predicate StepAt(tr: seq<Sys>, i: nat)
    requires i + 1 < |tr|
  {
    WellFormed(tr[i].ring) && Next(tr[i], tr[i + 1])
  }

  /** The refinement, in every state of every run. */
  lemma {:induction false} RunKeepsInv(tr: seq<Sys>, i: nat)
    requires Run(tr) && i < |tr|
    ensures Inv(tr[i])
    ensures var x := tr[i];
            EncodeAll(x.accepted) == x.f.saved + (Held(x.ring) + Pending(x.p)) && x.f.saved <= x.f.file
  {
    if i == 0 {
      StartInv(tr[0]);
    } else {
      RunKeepsInv(tr, i - 1);
      assert StepAt(tr, i - 1);
      NextKeepsInv(tr[i - 1], tr[i]);
    }
  }

  /** The oldest full slice is not the one being filled. */
  lemma HeadIsFull(r: Ring)
    requires WellFormed(r) && 0 < r.n < SLICES
    ensures Head(r) < SLICES && Head(r) != r.wp
  {
  }

  /** While the saver is writing a slice, no step of the producer changes a byte of it. */
  lemma DrainedSliceUntouched(tr: seq<Sys>, i: nat)
    requires Run(tr) && i + 1 < |tr| && StepAt(tr, i) && tr[i].s.SWrite? && ProducerStep(tr[i], tr[i + 1])
    ensures var head := tr[i].s.head;
            head < SLICES && tr[i + 1].ring.cache[head] == tr[i].ring.cache[head] && tr[i + 1].s == tr[i].s
  {
    RunKeepsInv(tr, i);
    var x := tr[i];
    if x.p.PCopy? {
      HeadIsFull(x.ring);
      CopyCache(x.ring, x.p.rest);
    }
  }

  /** A poll fails only for a record longer than a slice, on a full ring. */
  lemma PollFails(tr: seq<Sys>, i: nat)
    requires Run(tr) && i + 1 < |tr| && StepAt(tr, i) && tr[i].p.PPoll? && tr[i].p.retry > 0
    requires ProducerStep(tr[i], tr[i + 1]) && !tr[i + 1].p.PWrite?
    ensures Fits(tr[i].p.e) && |Encode(tr[i].p.e)| > tr[i].ring.size && tr[i].ring.n == SLICES
    ensures tr[i + 1] == tr[i].(p := PPoll(tr[i].p.e, tr[i].p.retry - 1))
  {
    RunKeepsInv(tr, i);
    EnoughExactly(tr[i].ring, |Encode(tr[i].p.e)|);
  }

  predicate Giant(x: Sys)
    requires x.p.PPoll?
  {
    Fits(x.p.e) && |Encode(x.p.e)| > x.ring.size
  }

  lemma VainStep(x: Sys, y: Sys)
    requires Inv(x) && Next(x, y) && y.p.PPoll? && y.p.retry < MAX_RETRY
    ensures x.p.PPoll? && x.p.e == y.p.e && y.ring.size == x.ring.size && (x.p == y.p || x.ring.n == SLICES)
    ensures x.p != y.p ==> Giant(y)
  {
    if ProducerStep(x, y) {
      EnoughExactly(x.ring, |Encode(x.p.e)|);
    }
  }

  /** The record that a producer has polled for in vain. */
  lemma {:induction false} PolledInVain(tr: seq<Sys>, i: nat)
    requires Run(tr) && i < |tr| && tr[i].p.PPoll? && tr[i].p.retry < MAX_RETRY
    ensures Giant(tr[i])
    decreases i
  {
    RunKeepsInv(tr, i - 1);
    assert StepAt(tr, i - 1);
    VainStep(tr[i - 1], tr[i]);
    if tr[i - 1].p == tr[i].p {
      PolledInVain(tr, i - 1);
    }
  }

  /** A record that is dropped, after its five polls, is longer than a slice; it is then
      dropped whole, and nothing else changes. */
  lemma DropsOnlyGiants(tr: seq<Sys>, i: nat)
    requires Run(tr) && i + 1 < |tr| && StepAt(tr, i)
    requires tr[i].p.PPoll? && ProducerStep(tr[i], tr[i + 1]) && tr[i + 1].p == PIdle
    ensures tr[i].p.retry == 0 && Fits(tr[i].p.e) && |Encode(tr[i].p.e)| > tr[i].ring.size
    ensures tr[i + 1] == tr[i].(p := PIdle)
  {
    PolledInVain(tr, i);
  }

  /** When the saver has finished, the file is the whole stream, and decodes to exactly the
      accepted events, if and only if no full slice was waiting and no record was unfinished when
      the saver left its loop, and none has been accepted since; wherever stop was called. */
  lemma FileCompleteExactly(tr: seq<Sys>, i: nat)
    requires Run(tr) && i < |tr| && tr[i].s.SDone?
    ensures forall e :: e in tr[i].accepted ==> Fits(e)
    ensures var left := tr[i].s.left;
            tr[i].f.file == EncodeAll(tr[i].accepted) <==>
            left.n == 0 && left.pending == [] && left.count == |tr[i].accepted|
    ensures tr[i].f.file == EncodeAll(tr[i].accepted) ==> DecodeAll(tr[i].f.file) == Some(tr[i].accepted)
  {
    RunKeepsInv(tr, i);
    FinishedExactly(tr[i]);
    DecodeAllEncodeAll(tr[i].accepted);
  }

  lemma NothingMissing(x: Sys)
    requires Inv(x) && x.s.SDone?
    requires x.s.left.n == 0 && x.s.left.pending == [] && x.s.left.count == |x.accepted|
    ensures x.f.file == EncodeAll(x.accepted)
  {
    var part := x.ring.cache[x.ring.wp][..x.ring.filled];
    assert x.ring.wp == x.s.left.slice;
    assert Held(x.ring) == part by {
      assert Full(x.ring.cache, Head(x.ring), 0) == [] && [] + part == part;
    }
    assert Pending(x.p) == [] && part + [] == part;
  }

  lemma SomethingMissing(x: Sys)
    requires Inv(x) && x.s.SDone?
    requires x.s.left.n > 0 || x.s.left.pending != [] || x.s.left.count != |x.accepted|
    ensures |EncodeAll(x.accepted)| > |x.f.file|
  {
    assert |EncodeAll(x.accepted)| == |x.f.saved| + Waiting(x);
    assert |x.f.file| == |x.f.saved| + x.s.left.len;
  }

  lemma FinishedExactly(x: Sys)
    requires Inv(x) && x.s.SDone?
    ensures var left := x.s.left;
            x.f.file == EncodeAll(x.accepted) <==> left.n == 0 && left.pending == [] && left.count == |x.accepted|
  {
    if x.s.left.n == 0 && x.s.left.pending == [] && x.s.left.count == |x.accepted| {
      NothingMissing(x);
    } else {
      SomethingMissing(x);
    }
  }

  /** When stop is called between two tracing calls, that is if and only if the saver did not
      stand between its test of n and its test of stopping with a full slice waiting. */
  lemma QuietStopExactly(tr: seq<Sys>, i: nat)
    requires Run(tr) && i < |tr| && tr[i].s.SDone? && !tr[i].stop.busy
    ensures forall e :: e in tr[i].accepted ==> Fits(e)
    ensures tr[i].f.file == EncodeAll(tr[i].accepted) <==> !tr[i].stop.torn
  {
    FileCompleteExactly(tr, i);
    RunKeepsInv(tr, i);
  }

  /** At every moment the file is a prefix of the stream of accepted records. */
  lemma FileIsPrefix(tr: seq<Sys>, i: nat)
    requires Run(tr) && i < |tr| && !HasLeft(tr[i].s)
    ensures forall e :: e in tr[i].accepted ==> Fits(e)
    ensures tr[i].f.file <= EncodeAll(tr[i].accepted)
  {
    RunKeepsInv(tr, i);
    var x := tr[i];
    if x.ring.n > 0 {
      RetireDrops(x.ring);
      Associative(x.ring.cache[Head(x.ring)], Held(Retire(x.ring)), Pending(x.p));
    }
  }

  /** Steps of the saver until a slice of a full ring is free. */
  function ToFree(s: Saver, size: nat): nat {
    match s
    case SStop => size + 5
    case SCheck => size + 4
    case SHead => size + 3
    case SWrite(_, k) => if k < size then size - k + 2 else 2
    case SRetire(_) => 1
    case _ => 0
  }

  /** A producer sleeps in his_write on a full ring. */
  predicate Sleeps(x: Sys) {
    x.p.PWrite? && x.p.rest != [] && x.ring.n == SLICES
  }

  /** The saver has left its loop, or is about to. */
  predicate Gone(x: Sys) {
    HasLeft(x.s) || (x.s.SStop? && x.stop.stopping)
  }

  /** A producer asleep on a full ring cannot move.  While the saver is there it is served: the
      saver's next step exists, is its only one, and brings it nearer to the free slice, which it
      reaches after at most as many steps as a slice has bytes, and five. */
  lemma FullRingDrains(tr: seq<Sys>, i: nat) returns (y: Sys)
    requires Run(tr) && i < |tr| && Sleeps(tr[i]) && !Gone(tr[i])
    ensures WellFormed(tr[i].ring) && forall z :: !ProducerStep(tr[i], z)
    ensures forall z :: SaverStep(tr[i], z) <==> z == y
    ensures 0 < ToFree(tr[i].s, tr[i].ring.size) <= tr[i].ring.size + 5
    ensures y.ring.n < SLICES || ToFree(y.s, y.ring.size) < ToFree(tr[i].s, tr[i].ring.size)
  {
    RunKeepsInv(tr, i);
    y := SaverMove(tr[i]);
  }

  /** Once the saver is gone it sleeps for ever, with the trace mutex in its hands. */
  lemma {:induction false} FullRingForEver(tr: seq<Sys>, i: nat, j: nat)
    requires Run(tr) && i <= j < |tr| && Sleeps(tr[i]) && Gone(tr[i])
    ensures Gone(tr[j]) && tr[j].p == tr[i].p && tr[j].ring == tr[i].ring
    decreases j - i
  {
    if i < j {
      FullRingForEver(tr, i, j - 1);
      assert StepAt(tr, j - 1);
    }
  }

  /** What the saver does next in its loop. */
  lemma SaverMove(x: Sys) returns (y: Sys)
    requires Inv(x) && !Gone(x) && x.ring.n == SLICES
    ensures forall z :: SaverStep(x, z) <==> z == y
    ensures 0 < ToFree(x.s, x.ring.size) <= x.ring.size + 5
    ensures y.ring.n < SLICES || ToFree(y.s, y.ring.size) < ToFree(x.s, x.ring.size)
  {
    match x.s
    case SCheck => y := x.(s := SHead);
    case SStop => y := x.(s := SCheck);
    case SHead => y := x.(s := SWrite(Head(x.ring), 0));
    case SWrite(head, k) =>
      y := if k < x.ring.size then x.(f := x.f.(file := x.f.file + [x.ring.cache[head][k]]), s := SWrite(head, k + 1))
           else x.(s := SRetire(head));
    case SRetire(head) => y := x.(ring := Retire(x.ring), f := x.f.(saved := x.f.file), s := SCheck);
  }

  /** A stop within a tracing call: the record is accepted, the saver sees the request before a
      byte of it is copied, and finishes with an empty file. */
  lemma CutRun() returns (tr: seq<Sys>)
    ensures Run(tr) && var x := tr[|tr| - 1]; x.s.SDone? && x.stop.busy && |x.accepted| == 1 && x.f.file == []
  {
    var z: seq<Byte> := [0, 0, 0, 0, 0, 0];
    var e := Event.Free(0, 0);
    var x0 := Sys(Ring([z, z, z, z], 6, 0, 0, 0), Files([], []), PIdle, SCheck, Stop(false, false, false), []);
    var x1 := x0.(p := PPoll(e, MAX_RETRY));
    var x2 := x1.(p := PWrite(EncodeHead(e), EncodeTail(e)), accepted := [] + [e]);
    var x3 := x2.(stop := Stop(true, true, false));
    var x4 := x3.(s := SStop);
    var x5 := x4.(s := STail(Leaving(x4), 0));
    var x6 := x5.(s := SDone(Leaving(x4)));
    assert ProducerStep(x0, x1) && ProducerStep(x1, x2) && StopStep(x2, x3);
    assert SaverStep(x3, x4) && SaverStep(x4, x5) && SaverStep(x5, x6);
    tr := [x0, x1, x2, x3, x4, x5, x6];
  }

  /** The loss does happen: with six-byte slices, one release is logged while the saver
      stands between its two tests, and stop is called next.  The saver finishes with an
      empty file, although the release was accepted. */
  lemma TornRun() returns (tr: seq<Sys>)
    ensures Run(tr) && var x := tr[|tr| - 1]; x.s.SDone? && x.stop.torn && |x.accepted| == 1 && x.f.file == []
  {
    var z: seq<Byte> := [0, 0, 0, 0, 0, 0];
    var e := Event.Free(0, 0);
    var r := Ring([z, z, z, z], 6, 0, 0, 0);
    CopyCache(r, EncodeHead(e));
    tr := TornSteps(e, r, EncodeHead(e), Copy(r, EncodeHead(e)));
  }

  lemma TornSteps(e: Event, r: Ring, head: seq<Byte>, r': Ring) returns (tr: seq<Sys>)
    requires WellFormed(r) && r.n == 0 && r.filled == 0 && r.size == 6
    requires e.Free? && head == EncodeHead(e) && r' == Copy(r, head) && WellFormed(r') && r'.n == 1 && r'.filled == 0
    ensures Run(tr) && var x := tr[|tr| - 1]; x.s.SDone? && x.stop.torn && |x.accepted| == 1 && x.f.file == []
  {
    var x0 := Sys(r, Files([], []), PIdle, SCheck, Stop(false, false, false), []);
    var x1 := x0.(s := SStop);
    var x2 := x1.(p := PPoll(e, MAX_RETRY));
    var x3 := x2.(p := PWrite(head, []), accepted := [] + [e]);
    var x4 := x3.(p := PCopy(head, []));
    var x5 := x4.(ring := r', p := PWrite([], []));
    var x6 := x5.(p := PIdle);
    var x7 := x6.(stop := Stop(true, false, true));
    var x8 := x7.(s := STail(Leaving(x7), 0));
    var x9 := x8.(s := SDone(Leaving(x7)));
    assert Taken(r, head) == |head| && head[|head|..] == [];
    assert SaverStep(x0, x1) && ProducerStep(x1, x2) && ProducerStep(x2, x3) && ProducerStep(x3, x4);
    assert ProducerStep(x4, x5) && ProducerStep(x5, x6) && StopStep(x6, x7) && SaverStep(x7, x8) && SaverStep(x8, x9);
    tr := [x0, x1, x2, x3, x4, x5, x6, x7, x8, x9];
  }
}
