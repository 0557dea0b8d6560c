/** How av_render.c stores a frame in a queue block: a 16-byte header (the struct of a 32-bit
    target) and the payload, either copied right behind the header or produced in place at
    an aligned address inside the block. */
module FrameLayout {
  import opened Bytes
  import opened Wrappers

  const HEAD_SIZE := 16

  /** `data` is an address; `eos` stands for the byte of the flag and three of padding. */
  datatype Head = Head(pts: nat, data: nat, size: nat, eos: nat)

  predicate HeadOk(h: Head) {
    h.pts < U32_RANGE && h.data < U32_RANGE && h.size <= I32_MAX && h.eos < U32_RANGE
  }

  function EncodeHead(h: Head): (s: seq<Byte>)
    requires HeadOk(h)
    ensures |s| == HEAD_SIZE
  {
    EncodeU32(h.pts) + EncodeU32(h.data) + EncodeU32(h.size) + EncodeU32(h.eos)
  }

  function DecodeHead(s: seq<Byte>): Head
    requires |s| >= HEAD_SIZE
  {
    Head(LoadU32(s, 0), LoadU32(s, 4), LoadU32(s, 8), LoadU32(s, 12))
  }

  lemma HeadRoundTrip(h: Head, s: seq<Byte>)
    requires HeadOk(h) && |s| >= HEAD_SIZE && s[..HEAD_SIZE] == EncodeHead(h)
    ensures DecodeHead(s) == h
  {
    var e := EncodeHead(h);
    assert s[0..4] == e[0..4] == EncodeU32(h.pts);
    assert s[4..8] == s[..HEAD_SIZE][4..8] == e[4..8] == EncodeU32(h.data);
    assert s[8..12] == s[..HEAD_SIZE][8..12] == e[8..12] == EncodeU32(h.size);
    assert s[12..16] == s[..HEAD_SIZE][12..16] == e[12..16] == EncodeU32(h.eos);
    StoreThenLoad(h.pts);
    StoreThenLoad(h.data);
    StoreThenLoad(h.size);
    StoreThenLoad(h.eos);
  }

  /** Where the fields of a stored header stand: time stamp, payload address, size, flag. */
  lemma HeadFields(h: Head)
    requires HeadOk(h)
    ensures LoadU32(EncodeHead(h), 0) == h.pts && LoadU32(EncodeHead(h), 4) == h.data
    ensures LoadU32(EncodeHead(h), 8) == h.size && LoadU32(EncodeHead(h), 12) == h.eos
  {
    var e := EncodeHead(h);
    assert e[0..4] == EncodeU32(h.pts) && e[4..8] == EncodeU32(h.data);
    assert e[8..12] == EncodeU32(h.size) && e[12..16] == EncodeU32(h.eos);
    StoreThenLoad(h.pts);
    StoreThenLoad(h.data);
    StoreThenLoad(h.size);
    StoreThenLoad(h.eos);
  }

  // ----- reading -----

  /** read_for_v_render on a block at address b: the frame with its payload address, unless
      the lengths disagree. */
  function ReadFrame(block: seq<Byte>, b: nat): Option<Head>
    requires |block| >= HEAD_SIZE
  {
    var r := DecodeHead(block);
    if r.data > b && r.data + r.size == b + |block| then Some(r)
    else if r.size + HEAD_SIZE != |block| then None
    else Some(r.(data := b + HEAD_SIZE))
  }

  /** Which blocks are taken for frames: those whose address and size lead to the end of the
      block, with their own address; and those whose size is that of the bytes behind the
      header, with the address behind the header; and no others. */
  lemma ReadFrameExactly(block: seq<Byte>, b: nat)
    requires |block| >= HEAD_SIZE
    ensures var (data, size, r) := (LoadU32(block, 4), LoadU32(block, 8), ReadFrame(block, b));
            var inPlace := data > b && data + size == b + |block|;
            && (r.Some? <==> inPlace || size + 16 == |block|)
            && (r.Some? ==>
                  && r.value.pts == LoadU32(block, 0) && r.value.size == size && r.value.eos == LoadU32(block, 12)
                  && r.value.data == if inPlace then data else b + 16)
  {
  }

  /** The payload that a reader finds at the address it was given. */
  function PayloadAt(block: seq<Byte>, b: nat, h: Head): seq<Byte>
    requires b <= h.data && h.data - b + h.size <= |block|
  {
    block[h.data - b..h.data - b + h.size]
  }

  /** A copied frame comes back with its fields, and its payload stands at the address that
      the reader is given, whatever pointer the producer's header held. */
  lemma CopiedFrameIsRecovered(h: Head, payload: seq<Byte>, b: nat)
    requires HeadOk(h) && |payload| == h.size
    ensures var block := EncodeHead(h) + payload; var r := ReadFrame(block, b);
            r == Some(h.(data := b + HEAD_SIZE)) && PayloadAt(block, b, r.value) == payload
  {
    var block := EncodeHead(h) + payload;
    assert block[..HEAD_SIZE] == EncodeHead(h);
    HeadRoundTrip(h, block);
  }

  // ----- frame buffers inside the queue -----

  predicate PowerOfTwo(a: nat) {
    a == 1 || (a > 1 && a % 2 == 0 && PowerOfTwo(a / 2))
  }

  /** y & ~(a - 1) for a power of two: bit by bit, the low bits of y become 0. */
  function ClearLow(y: nat, a: nat): nat
    requires PowerOfTwo(a)
    decreases a
  {
    if a == 1 then y else 2 * ClearLow(y / 2, a / 2)
  }

  /** As many low bits of x are 0 as a has. */
  predicate Aligned(x: nat, a: nat)
    requires PowerOfTwo(a)
    decreases a
  {
    a == 1 || (x % 2 == 0 && Aligned(x / 2, a / 2))
  }

  lemma Remainder(x: nat, q: nat, a: nat, r: nat)
    requires x == q * a + r && r < a
    ensures x % a == r
  {
    var p := x / a;
    assert x == p * a + x % a;
    if p < q {
      TimesMono(p + 1, q, a);
    } else if q < p {
      TimesMono(q + 1, p, a);
    }
  }

  lemma TimesMono(p: nat, q: nat, a: nat)
    requires p <= q
    ensures p * a <= q * a
  {
  }

  lemma Doubled(x: nat, a: nat, b: nat)
    requires a == 2 * b && b > 0
    ensures x % a == 2 * (x / 2 % b) + x % 2
  {
    var h := x / 2;
    var k, s := h / b, h % b;
    assert h == k * b + s;
    assert 2 * (k * b) == k * a;
    Remainder(x, k, a, 2 * s + x % 2);
  }

  /** Aligned means divisible. */
  lemma {:induction false} AlignedDivides(x: nat, a: nat)
    requires PowerOfTwo(a)
    ensures a > 0 && (Aligned(x, a) <==> x % a == 0)
    decreases a
  {
    if a > 1 {
      AlignedDivides(x / 2, a / 2);
      Doubled(x, a, a / 2);
    }
  }

  lemma {:induction false} ClearLowAligns(y: nat, a: nat)
    requires PowerOfTwo(a)
    ensures Aligned(ClearLow(y, a), a) && ClearLow(y, a) <= y < ClearLow(y, a) + a
    decreases a
  {
    if a > 1 {
      ClearLowAligns(y / 2, a / 2);
    }
  }

  /** (x + a - 1) & ~(a - 1) */
  function AlignUp(x: nat, a: nat): nat
    requires PowerOfTwo(a)
  {
    ClearLow(x + (a - 1), a)
  }

  /** The bytes that fetch_vid_fb reserves for a frame of n bytes. */
  function FbRequest(n: nat, a: nat): nat {
    HEAD_SIZE + n + a
  }

  /** The payload address of a frame buffer whose block is at address b. */
  function FbData(b: nat, a: nat): nat
    requires PowerOfTwo(a)
  {
    AlignUp(b + HEAD_SIZE, a)
  }

  /** The payload address is aligned, lies behind the header, and leaves room for n bytes
      inside the reservation. */
  lemma FbFits(b: nat, n: nat, a: nat)
    requires PowerOfTwo(a)
    ensures Aligned(FbData(b, a), a) && b + HEAD_SIZE <= FbData(b, a) < b + HEAD_SIZE + a
    ensures FbData(b, a) + n < b + FbRequest(n, a)
  {
    ClearLowAligns(b + HEAD_SIZE + (a - 1), a);
  }

  /** A frame produced in place, released with the size of its header plus the distance of
      its payload, is read back at the very address where it was produced. */
  lemma InPlaceFrameIsRecovered(block: seq<Byte>, b: nat, h: Head, payload: seq<Byte>)
    requires HeadOk(h) && |payload| == h.size && b + HEAD_SIZE <= h.data
    requires |block| == h.size + (h.data - b)
    requires DecodeHead(block) == h && block[h.data - b..] == payload
    ensures ReadFrame(block, b) == Some(h) && PayloadAt(block, b, h) == payload
  {
  }
}
