/** The history log of media_lib_mem_his.c: a ring of four cache slices between the code that
    traces allocations and the thread that saves full slices to a file. */
module LogRing {
  import opened Bytes
  import opened Wrappers

  const SLICES := 4

  /** `n` full slices end just before slice wp, which holds `filled` bytes so far. */
  datatype Ring = Ring(cache: seq<seq<Byte>>, size: nat, filled: nat, wp: nat, n: nat)

  predicate WellFormed(r: Ring) {
    && |r.cache| == SLICES && 0 < r.size
    && (forall i :: 0 <= i < SLICES ==> |r.cache[i]| == r.size)
    && r.wp < SLICES && r.n <= SLICES && r.filled < r.size
    && (r.n == SLICES ==> r.filled == 0)
  }

  /** The oldest full slice. */
  function Head(r: Ring): nat
    requires r.n <= SLICES
  {
    (r.wp + SLICES - r.n) % SLICES
  }

  /** The bytes of `k` slices from `head` on, around the ring. */
  function Full(cache: seq<seq<Byte>>, head: nat, k: nat): seq<Byte>
    requires |cache| == SLICES && head < SLICES
    decreases k
  {
    if k == 0 then [] else cache[head] + Full(cache, (head + 1) % SLICES, k - 1)
  }

  /** Everything that has been logged but is not in the file. */
  function Held(r: Ring): seq<Byte>
    requires WellFormed(r)
  {
    Full(r.cache, Head(r), r.n) + r.cache[r.wp][..r.filled]
  }

  // ----- the critical sections -----

  function Room(r: Ring): int {
    r.size - r.filled
  }

  /** The part of `data` that one turn of his_write's loop stores. */
  function Taken(r: Ring, data: seq<Byte>): nat
    requires WellFormed(r)
    ensures Taken(r, data) <= |data|
  {
    if Room(r) > |data| then |data| else Room(r)
  }

  /** One turn of his_write's loop under the mutex. */
  function Copy(r: Ring, data: seq<Byte>): Ring
    requires WellFormed(r)
  {
    var fill := Taken(r, data);
    var cache := r.cache[r.wp := Put(r.cache[r.wp], r.filled, data[..fill])];
    if Room(r) > fill then r.(cache := cache, filled := r.filled + fill)
    else r.(cache := cache, filled := 0, wp := (r.wp + 1) % SLICES, n := r.n + 1)
  }

  function Retire(r: Ring): Ring
    requires r.n > 0
  {
    r.(n := r.n - 1)
  }

  /** The test that his_wait_for_enough polls. */
  predicate Enough(r: Ring, size: nat) {
    r.n < SLICES || r.filled + size <= r.size
  }

  // ----- what they do to the logged bytes -----

  lemma {:induction false} FullFrame(a: seq<seq<Byte>>, b: seq<seq<Byte>>, head: nat, k: nat, w: nat)
    requires |a| == |b| == SLICES && head < SLICES && w < SLICES
    requires forall i :: 0 <= i < SLICES && i != w ==> a[i] == b[i]
    requires k <= (w + SLICES - head) % SLICES
    ensures Full(a, head, k) == Full(b, head, k)
    decreases k
  {
    if k > 0 {
      FullFrame(a, b, (head + 1) % SLICES, k - 1, w);
    }
  }

  lemma {:induction false} FullAppend(cache: seq<seq<Byte>>, head: nat, k: nat)
    requires |cache| == SLICES && head < SLICES
    ensures Full(cache, head, k + 1) == Full(cache, head, k) + cache[(head + k) % SLICES]
    decreases k
  {
    if k == 0 {
      assert Full(cache, (head + 1) % SLICES, 0) == [];
    } else {
      var next := (head + 1) % SLICES;
      FullAppend(cache, next, k - 1);
      assert (next + (k - 1)) % SLICES == (head + k) % SLICES;
      assert Full(cache, head, k + 1) == cache[head] + Full(cache, next, k);
    }
  }

  /** What a turn does to the slices: the full ones stay, slice wp grows by the bytes taken. */
  lemma CopyCache(r: Ring, data: seq<Byte>)
    requires WellFormed(r) && r.n < SLICES
    ensures WellFormed(Copy(r, data)) && Head(Copy(r, data)) == Head(r)
    ensures forall i :: 0 <= i < SLICES && i != r.wp ==> Copy(r, data).cache[i] == r.cache[i]
    ensures Full(Copy(r, data).cache, Head(r), r.n) == Full(r.cache, Head(r), r.n)
    ensures var fill := Taken(r, data);
            Copy(r, data).cache[r.wp][..r.filled + fill] == r.cache[r.wp][..r.filled] + data[..fill]
  {
    FullFrame(r.cache, Copy(r, data).cache, Head(r), r.n, r.wp);
  }

  /** One turn appends exactly the bytes it took. */
  lemma CopyAppends(r: Ring, data: seq<Byte>)
    requires WellFormed(r) && r.n < SLICES
    ensures WellFormed(Copy(r, data)) && Held(Copy(r, data)) == Held(r) + data[..Taken(r, data)]
  {
    CopyCache(r, data);
    var fill := Taken(r, data);
    var c := Copy(r, data);
    var full, part := Full(r.cache, Head(r), r.n), r.cache[r.wp][..r.filled];
    Associative(full, part, data[..fill]);
    if Room(r) <= fill {
      SliceCompleted(r, c, fill);
    }
  }

  lemma SliceCompleted(r: Ring, c: Ring, fill: nat)
    requires WellFormed(r) && r.n < SLICES && WellFormed(c) && fill == Room(r)
    requires c == r.(cache := c.cache, filled := 0, wp := (r.wp + 1) % SLICES, n := r.n + 1)
    ensures Head(c) == Head(r)
    ensures Held(c) == Full(c.cache, Head(r), r.n) + c.cache[r.wp][..r.filled + fill]
  {
    FullAppend(c.cache, Head(r), r.n);
    assert (Head(r) + r.n) % SLICES == r.wp;
    assert c.cache[r.wp][..r.filled + fill] == c.cache[r.wp];
  }

  /** Retiring drops exactly the oldest full slice. */
  lemma RetireDrops(r: Ring)
    requires WellFormed(r) && r.n > 0
    ensures WellFormed(Retire(r)) && Held(r) == r.cache[Head(r)] + Held(Retire(r))
  {
    assert (Head(r) + 1) % SLICES == Head(Retire(r));
  }

  /** his_write's loop up to its end or to the point where it has to sleep because the ring
      is full, and the bytes it has not stored then. */
  function CopyAll(r: Ring, data: seq<Byte>): (Ring, seq<Byte>)
    requires WellFormed(r)
    decreases SLICES - r.n, |data|
  {
    if data == [] || r.n >= SLICES then (r, data)
    else
      CopyAppends(r, data);
      CopyAll(Copy(r, data), data[Taken(r, data)..])
  }

  /** `rest` is what is left of `data` once the rest of it has been appended to `before`. */
  predicate Appended(before: seq<Byte>, data: seq<Byte>, after: seq<Byte>, rest: seq<Byte>) {
    && |rest| <= |data| && rest == data[|data| - |rest|..]
    && after == before + data[..|data| - |rest|]
  }

  lemma AppendedTwice(h0: seq<Byte>, data: seq<Byte>, h1: seq<Byte>, more: seq<Byte>, h2: seq<Byte>, rest: seq<Byte>)
    requires Appended(h0, data, h1, more) && Appended(h1, more, h2, rest)
    ensures Appended(h0, data, h2, rest)
  {
    var i, j := |data| - |more|, |data| - |rest|;
    Associative(h0, data[..i], data[i..][..j - i]);
  }

  /** Such a run of turns appends a prefix of the data; it stops short of the end only on
      a full ring. */
  lemma {:induction false} CopyAllAppends(r: Ring, data: seq<Byte>)
    requires WellFormed(r)
    ensures var (c, rest) := CopyAll(r, data);
            WellFormed(c) && Appended(Held(r), data, Held(c), rest) && (rest != [] ==> c.n == SLICES)
    decreases SLICES - r.n, |data|
  {
    if data == [] || r.n >= SLICES {
      assert Held(r) + data[..0] == Held(r);
    } else {
      CopyAppends(r, data);
      var m, more := Copy(r, data), data[Taken(r, data)..];
      CopyAllAppends(m, more);
      var (c, rest) := CopyAll(m, more);
      AppendedTwice(Held(r), data, Held(m), more, Held(c), rest);
    }
  }

  /** With room in the ring a record is accepted; a full ring refuses exactly the records
      longer than a slice, because a full ring never holds a partly filled slice. */
  lemma EnoughExactly(r: Ring, size: nat)
    requires WellFormed(r)
    ensures Enough(r, size) <==> r.n < SLICES || size <= r.size
  {
  }

  // ----- the ring as an object -----

  class SaveHis {
    const cache: array<seq<Byte>>
    const cacheSize: nat
    var cacheFilled: nat
    var wp: nat
    var n: nat

    function State(): Ring
      reads this, cache
    {
      Ring(cache[..], cacheSize, cacheFilled, wp, n)
    }

    ghost predicate Valid()
      reads this, cache
    {
      WellFormed(State())
    }

    constructor (eachSize: nat)
      requires 0 < eachSize
      ensures Valid() && Held(State()) == [] && n == 0 && fresh(cache)
    {
      cache := new seq<Byte>[SLICES](_ => seq(eachSize, _ => 0));
      cacheSize := eachSize;
      cacheFilled, wp, n := 0, 0, 0;
    }

    /** One turn of his_write's loop, under the mutex. */
    method CopyOnce(data: seq<Byte>) returns (rest: seq<Byte>)
      requires Valid() && n < SLICES
      modifies this, cache
      ensures Valid() && State() == Copy(old(State()), data) && rest == data[Taken(old(State()), data)..]
      ensures Appended(old(Held(State())), data, Held(State()), rest)
    {
      ghost var r := State();
      CopyAppends(r, data);
      var left := cacheSize - cacheFilled;
      var fill := if left > |data| then |data| else left;
      cache[wp] := Put(cache[wp], cacheFilled, data[..fill]);
      cacheFilled := cacheFilled + fill;
      if left <= fill {
        cacheFilled := 0;
        wp := (wp + 1) % SLICES;
        n := n + 1;
      }
      rest := data[fill..];
      assert State() == Copy(r, data);
    }

    /** his_write up to its end or to its next sleep; `rest` is what it still has to store. */
    method Write(data: seq<Byte>) returns (rest: seq<Byte>)
      requires Valid()
      modifies this, cache
      ensures Valid() && (State(), rest) == CopyAll(old(State()), data)
      ensures Appended(old(Held(State())), data, Held(State()), rest) && (rest != [] ==> n == SLICES)
    {
      CopyAllAppends(State(), data);
      rest := data;
      while rest != [] && n < SLICES
        invariant Valid() && CopyAll(State(), rest) == CopyAll(old(State()), data)
        decreases SLICES - n, |rest|
      {
        rest := CopyOnce(rest);
      }
    }

    /** The slice that the saving thread is to write next. */
    method OldestSlice() returns (head: nat)
      requires Valid() && n > 0
      ensures head == Head(State()) && cache[head] <= Held(State())
    {
      RetireDrops(State());
      head := (wp + SLICES - n) % SLICES;
    }

    /** The saving thread's last word on a slice it has written. */
    method RetireSlice()
      requires Valid() && n > 0
      modifies this`n
      ensures Valid() && State() == Retire(old(State()))
      ensures old(Held(State())) == cache[old(Head(State()))] + Held(State())
    {
      RetireDrops(State());
      n := n - 1;
    }
  }
}
