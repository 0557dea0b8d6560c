/** The records of the memory history: packed structs of media_lib_mem_his.c, one per
    allocation (12 bytes and the call stack) and one per release (6 bytes). */
module LogRecords {
  import opened Bytes
  import opened Wrappers

  type U32 = n: nat | n < U32_RANGE

  const ACT_MALLOC: Byte := 43
  const ACT_FREE: Byte := 45
  const MALLOC_SIZE := 12
  const FREE_SIZE := 6

  /** `pad` is the reserved byte, which the source leaves uninitialised. */
  datatype Event =
    | Malloc(addr: U32, size: U32, flag: Byte, pad: Byte, stack: seq<U32>)
    | Free(addr: U32, pad: Byte)

  /** The frame count travels in one byte. */
  predicate Fits(e: Event) {
    e.Malloc? ==> |e.stack| < 256
  }

  function EncodeWords(ws: seq<U32>): (s: seq<Byte>)
    ensures |s| == 4 * |ws|
  {
    if ws == [] then [] else EncodeU32(ws[0]) + EncodeWords(ws[1..])
  }

  /** The two buffers that add_mem_malloc_his writes one after the other. */
  function EncodeHead(e: Event): (s: seq<Byte>)
    requires Fits(e)
    ensures |s| == if e.Malloc? then MALLOC_SIZE else FREE_SIZE
  {
    match e
    case Malloc(addr, size, flag, pad, stack) =>
      [ACT_MALLOC, |stack|, flag, pad] + EncodeU32(addr) + EncodeU32(size)
    case Free(addr, pad) => [ACT_FREE, pad] + EncodeU32(addr)
  }

  function EncodeTail(e: Event): seq<Byte> {
    if e.Malloc? then EncodeWords(e.stack) else []
  }

  function Encode(e: Event): seq<Byte>
    requires Fits(e)
  {
    EncodeHead(e) + EncodeTail(e)
  }

  function EncodeAll(es: seq<Event>): seq<Byte>
    requires forall e :: e in es ==> Fits(e)
  {
    if es == [] then [] else Encode(es[0]) + EncodeAll(es[1..])
  }

  // ----- reading a log back -----

  function Word(s: seq<Byte>, at: nat): U32
    requires at + 4 <= |s|
  {
    LittleUnfolded(s[at..at + 4]);
    LoadU32(s, at)
  }

  function DecodeWords(s: seq<Byte>, at: nat, k: nat): (ws: seq<U32>)
    requires at + 4 * k <= |s|
    ensures |ws| == k
    decreases k
  {
    if k == 0 then [] else [Word(s, at)] + DecodeWords(s, at + 4, k - 1)
  }

  /** The first record of a log and its length. */
  function Decode(s: seq<Byte>): (r: Option<(Event, nat)>)
    ensures r.Some? ==> 0 < r.value.1 <= |s|
  {
    if |s| >= FREE_SIZE && s[0] == ACT_FREE then Some((Free(Word(s, 2), s[1]), FREE_SIZE))
    else if |s| >= MALLOC_SIZE && s[0] == ACT_MALLOC then
      var frames: nat := s[1];
      var len := MALLOC_SIZE + 4 * frames;
      if |s| < len then None
      else Some((Malloc(Word(s, 4), Word(s, 8), s[2], s[3], DecodeWords(s, MALLOC_SIZE, frames)), len))
    else None
  }

  function DecodeAll(s: seq<Byte>): Option<seq<Event>> {
    if s == [] then Some([])
    else
      match Decode(s)
      case None => None
      case Some((e, len)) =>
        match DecodeAll(s[len..])
        case None => None
        case Some(es) => Some([e] + es)
  }

  lemma WordAt(n: U32, s: seq<Byte>, at: nat)
    requires at + 4 <= |s| && s[at..at + 4] == EncodeU32(n)
    ensures Word(s, at) == n && LoadU32(s, at) == n
  {
    StoreThenLoad(n);
  }

  lemma {:induction false} WordsAt(ws: seq<U32>, s: seq<Byte>, at: nat)
    requires at + 4 * |ws| <= |s| && s[at..at + 4 * |ws|] == EncodeWords(ws)
    ensures DecodeWords(s, at, |ws|) == ws
  {
    if ws != [] {
      var all := s[at..at + 4 * |ws|];
      assert s[at..at + 4] == all[..4] == EncodeU32(ws[0]);
      assert s[at + 4..at + 4 + 4 * |ws[1..]|] == all[4..] == EncodeWords(ws[1..]);
      WordAt(ws[0], s, at);
      WordsAt(ws[1..], s, at + 4);
    }
  }

  lemma MallocFields(e: Event)
    requires Fits(e) && e.Malloc?
    ensures var s := EncodeHead(e);
            && s[0] as int == '+' as int && s[1] == |e.stack| && s[2] == e.flag && s[3] == e.pad
            && LoadU32(s, 4) == e.addr && LoadU32(s, 8) == e.size
  {
    var s := EncodeHead(e);
    assert s[4..8] == EncodeU32(e.addr) && s[8..12] == EncodeU32(e.size);
    WordAt(e.addr, s, 4);
    WordAt(e.size, s, 8);
  }

  lemma FreeFields(e: Event)
    requires Fits(e) && e.Free?
    ensures var s := EncodeHead(e);
            s[0] as int == '-' as int && s[1] == e.pad && LoadU32(s, 2) == e.addr
  {
    var s := EncodeHead(e);
    assert s[2..6] == EncodeU32(e.addr);
    WordAt(e.addr, s, 2);
  }

  lemma LoadFromTail(a: seq<Byte>, b: seq<Byte>, at: nat)
    requires at + 4 <= |b|
    ensures LoadU32(a + b, |a| + at) == LoadU32(b, at)
  {
    assert (a + b)[|a| + at..|a| + at + 4] == b[at..at + 4];
  }

  lemma LoadFromHead(a: seq<Byte>, b: seq<Byte>, at: nat)
    requires at + 4 <= |a|
    ensures LoadU32(a + b, at) == LoadU32(a, at)
  {
    assert (a + b)[at..at + 4] == a[at..at + 4];
  }

  lemma FrameField(ws: seq<U32>, k: nat)
    requires k < |ws|
    ensures LoadU32(EncodeWords(ws), 4 * k) == ws[k]
  {
    FrameAt(ws, k);
    WordAt(ws[k], EncodeWords(ws), 4 * k);
  }

  /** Where the fields of a record stand: a release is '-', the reserved byte and the address; an
      allocation is '+', the number of frames, the flag, the reserved byte, address, size and the
      frames. */
  lemma RecordFields(e: Event)
    requires Fits(e)
    ensures var s := Encode(e);
            match e
            case Free(addr, pad) =>
              |s| == 6 && s[0] as int == '-' as int && s[1] == pad && LoadU32(s, 2) == addr
            case Malloc(addr, size, flag, pad, stack) =>
              && |s| == 12 + 4 * |stack| && s[0] as int == '+' as int && s[1] == |stack| && s[2] == flag && s[3] == pad
              && LoadU32(s, 4) == addr && LoadU32(s, 8) == size
              && forall k :: 0 <= k < |stack| ==> LoadU32(s, 12 + 4 * k) == stack[k]
  {
    var head, tail := EncodeHead(e), EncodeTail(e);
    match e
    case Free(addr, pad) =>
      FreeFields(e);
      LoadFromHead(head, tail, 2);
    case Malloc(addr, size, flag, pad, stack) =>
      MallocFields(e);
      LoadFromHead(head, tail, 4);
      LoadFromHead(head, tail, 8);
      forall k | 0 <= k < |stack| ensures LoadU32(head + tail, 12 + 4 * k) == stack[k] {
        FrameField(stack, k);
        LoadFromTail(head, tail, 4 * k);
      }
  }

  lemma {:induction false} FrameAt(ws: seq<U32>, k: nat)
    requires k < |ws|
    ensures EncodeWords(ws)[4 * k..4 * k + 4] == EncodeU32(ws[k])
  {
    if k > 0 {
      FrameAt(ws[1..], k - 1);
      assert EncodeWords(ws)[4 * k..4 * k + 4] == EncodeWords(ws[1..])[4 * (k - 1)..4 * (k - 1) + 4];
    }
  }

  /** A record at the front of a log is read back whole, whatever follows it. */
  lemma DecodeEncode(e: Event, rest: seq<Byte>)
    requires Fits(e)
    ensures Decode(Encode(e) + rest) == Some((e, |Encode(e)|))
  {
    var s := Encode(e) + rest;
    match e
    case Free(addr, pad) =>
      assert s[2..6] == EncodeU32(addr);
      WordAt(addr, s, 2);
    case Malloc(addr, size, flag, pad, stack) =>
      assert s[4..8] == EncodeU32(addr);
      WordAt(addr, s, 4);
      assert s[8..12] == EncodeU32(size);
      WordAt(size, s, 8);
      assert s[12..12 + 4 * |stack|] == EncodeWords(stack);
      WordsAt(stack, s, 12);
  }

  /** The log is self-delimiting: decoding a concatenation of records gives back exactly
      the events, in order. */
  lemma {:induction false} DecodeAllEncodeAll(es: seq<Event>)
    requires forall e :: e in es ==> Fits(e)
    ensures DecodeAll(EncodeAll(es)) == Some(es)
  {
    if es != [] {
      var first, rest := Encode(es[0]), EncodeAll(es[1..]);
      DecodeEncode(es[0], rest);
      assert (first + rest)[|first|..] == rest;
      DecodeAllEncodeAll(es[1..]);
      assert [es[0]] + es[1..] == es;
    }
  }

  lemma {:induction false} EncodeAllAppend(es: seq<Event>, e: Event)
    requires (forall x :: x in es ==> Fits(x)) && Fits(e)
    ensures EncodeAll(es + [e]) == EncodeAll(es) + Encode(e)
  {
    var all := es + [e];
    if es == [] {
      assert all == [e] && EncodeAll([e][1..]) == [];
    } else {
      EncodeAllAppend(es[1..], e);
      assert all[0] == es[0] && all[1..] == es[1..] + [e];
      Associative(Encode(es[0]), EncodeAll(es[1..]), Encode(e));
    }
  }
}
