/** The RTP payload transformers of webrtc.c.  The sender turns a packet into
      header (12) | payload length (4) | payload | tail length (4) | "TAIL_<count>" NUL
    and the receiver undoes it, in place or into another buffer.  The 12 bytes are the
    fixed header of section 5.1 of RFC 3550. */
module RtpTransform {
  import opened Bytes

  const RTP_HEADER := 12
  const MAX_ENCODED := 1300
  const FIRST_VIDEO_TYPE := 96
  const TAIL_TEXT: seq<Byte> := [84, 65, 73, 76, 95]

  datatype Status = Ok | NotSupported | BadData

  // ----- formats -----

  /** printf's %u. */
  function Decimal(n: nat): (s: seq<Byte>)
    ensures 0 < |s|
    decreases n
  {
    if n < 10 then [48 + n] else Decimal(n / 10) + [48 + n % 10]
  }

  function Tail(count: nat): (t: seq<Byte>)
    ensures |t| == 5 + |Decimal(count)| + 1 && t[..5] == TAIL_TEXT
  {
    TAIL_TEXT + Decimal(count) + [0]
  }

  /** The value of decimal digits, most significant first. */
  function Value(s: seq<Byte>): int {
    if s == [] then 0
    else
      var last: int := s[|s| - 1];
      10 * Value(s[..|s| - 1]) + (last - 48)
  }

  /** The counter's text: digits, without a leading zero, whose value is the counter. */
  lemma {:induction false} DecimalIsValue(n: nat)
    ensures Value(Decimal(n)) == n && (forall k :: 0 <= k < |Decimal(n)| ==> 48 <= Decimal(n)[k] <= 57)
    ensures n > 0 ==> Decimal(n)[0] != 48
    ensures n == 0 ==> Decimal(n) == [48]
    decreases n
  {
    var s := Decimal(n);
    if n >= 10 {
      DecimalIsValue(n / 10);
      assert s[..|s| - 1] == Decimal(n / 10);
    } else {
      assert s[..0] == [];
    }
  }

  /** The tail: "TAIL_", the counter in decimal, and a NUL. */
  lemma TailParts(count: nat)
    ensures var t := Tail(count);
            && t[..5] == [84, 65, 73, 76, 95] && t[|t| - 1] == 0
            && Value(t[5..|t| - 1]) == count && (forall k :: 5 <= k < |t| - 1 ==> 48 <= t[k] <= 57)
            && (count > 0 ==> t[5] != 48) && (count == 0 ==> |t| == 7)
  {
    DecimalIsValue(count);
    var t := Tail(count);
    assert t[5..|t| - 1] == Decimal(count);
    assert forall k :: 5 <= k < |t| - 1 ==> t[k] == Decimal(count)[k - 5];
  }

  /** A packet and a tail on the wire. */
  function Layout(packet: seq<Byte>, tail: seq<Byte>): (f: seq<Byte>)
    requires RTP_HEADER <= |packet| < U32_RANGE && |tail| < U32_RANGE
    ensures |f| == |packet| + 8 + |tail|
  {
    packet[..RTP_HEADER] + EncodeU32(|packet| - RTP_HEADER) + packet[RTP_HEADER..] + EncodeU32(|tail|) + tail
  }

  /** The size that the sender announces. */
  function Announced(size: nat, count: nat): nat {
    size + 8 + |Tail(count)|
  }

  function PayloadLength(f: seq<Byte>): nat
    requires |f| >= RTP_HEADER + 4
  {
    LoadU32(f, RTP_HEADER)
  }

  /** The receiver's length test. */
  predicate Accepts(f: seq<Byte>)
    requires |f| >= RTP_HEADER + 4
  {
    var n := PayloadLength(f);
    && RTP_HEADER + n + 8 <= |f|
    && RTP_HEADER + n + 8 + LoadU32(f, RTP_HEADER + n + 4) == |f|
  }

  /** The packet in an accepted frame. */
  function Unwrap(f: seq<Byte>): seq<Byte>
    requires |f| >= RTP_HEADER + 4 && Accepts(f)
  {
    f[..RTP_HEADER] + f[RTP_HEADER + 4..RTP_HEADER + 4 + PayloadLength(f)]
  }

  function TailOf(f: seq<Byte>): seq<Byte>
    requires |f| >= RTP_HEADER + 4 && Accepts(f)
  {
    f[RTP_HEADER + PayloadLength(f) + 8..]
  }

  /** Where the tail of an accepted frame begins. */
  function TailStart(f: seq<Byte>): nat
    requires |f| >= RTP_HEADER + 4 && Accepts(f)
  {
    RTP_HEADER + PayloadLength(f) + 8
  }

  predicate TextAt(s: seq<Byte>, at: nat) {
    at + |TAIL_TEXT| <= |s| && s[at..at + |TAIL_TEXT|] == TAIL_TEXT
  }

  /** A comparison with the text stays inside the buffer: there is room for it, or a byte that
      differs. */
  predicate ComparisonEnds(s: seq<Byte>, at: nat) {
    at + |TAIL_TEXT| <= |s| || exists k :: 0 <= k < |TAIL_TEXT| && at + k < |s| && s[at + k] != TAIL_TEXT[k]
  }

  // ----- wrap and unwrap undo each other -----

  /** What stands where on the wire: the 12 bytes of the header, the payload's length, the payload,
      the tail's length, the tail. */
  lemma LayoutParts(packet: seq<Byte>, tail: seq<Byte>)
    requires 12 <= |packet| < U32_RANGE && |tail| < U32_RANGE
    ensures var f := Layout(packet, tail); var n := |packet| - 12;
            && |f| == 20 + n + |tail| && f[..12] == packet[..12]
            && f[12..16] == EncodeU32(n)
            && f[16..16 + n] == packet[12..]
            && f[16 + n..20 + n] == EncodeU32(|tail|)
            && f[20 + n..] == tail
  {
  }

  /** Every packet of at least a header, with any tail, is accepted and restored. */
  lemma UnwrapLayout(packet: seq<Byte>, tail: seq<Byte>)
    requires RTP_HEADER <= |packet| < U32_RANGE && |tail| < U32_RANGE
    ensures var f := Layout(packet, tail);
            Accepts(f) && Unwrap(f) == packet && TailOf(f) == tail
  {
    LayoutParts(packet, tail);
    StoreThenLoad(|packet| - RTP_HEADER);
    StoreThenLoad(|tail|);
    assert packet == packet[..RTP_HEADER] + packet[RTP_HEADER..];
  }

  /** The sender's frame, whatever its counter: announced size and written size agree, and
      the receiver accepts both the lengths and the tail and gives the packet back. */
  lemma RoundTrip(packet: seq<Byte>, count: nat)
    requires 12 <= |packet| && |packet| + 8 + |Tail(count)| <= 1300
    ensures var f := Layout(packet, Tail(count));
            && |f| == Announced(|packet|, count) && Accepts(f) && Unwrap(f) == packet
            && TextAt(f, TailStart(f))
  {
    UnwrapLayout(packet, Tail(count));
    var f := Layout(packet, Tail(count));
    assert f[TailStart(f)..TailStart(f) + 5] == TailOf(f)[..5];
  }

  lemma {:induction false} LittleInverse(s: seq<Byte>)
    requires |s| == 4
    ensures Little(s) < U32_RANGE && EncodeU32(Little(s)) == s
  {
    LittleUnfolded(s);
    var n := Little(s);
    var b0: int, b1: int, b2: int, b3: int := s[0], s[1], s[2], s[3];
    assert n / 256 == b1 + 256 * b2 + 65536 * b3;
    assert n / 65536 == b2 + 256 * b3;
    assert n / 16777216 == b3;
    assert EncodeU32(n)[0] == b0 && EncodeU32(n)[1] == b1 && EncodeU32(n)[2] == b2 && EncodeU32(n)[3] == b3;
  }

  /** The receiver accepts nothing else: an accepted frame is the layout of the packet and
      the tail that it is taken apart into. */
  lemma AcceptedIsLayout(f: seq<Byte>)
    requires RTP_HEADER + 4 <= |f| < U32_RANGE && Accepts(f)
    ensures |Unwrap(f)| >= RTP_HEADER && f == Layout(Unwrap(f), TailOf(f))
  {
    var n := PayloadLength(f);
    LittleInverse(f[RTP_HEADER..RTP_HEADER + 4]);
    LittleInverse(f[RTP_HEADER + n + 4..RTP_HEADER + n + 8]);
    LayoutParts(Unwrap(f), TailOf(f));
    var g := Layout(Unwrap(f), TailOf(f));
    assert f == f[..RTP_HEADER] + f[RTP_HEADER..RTP_HEADER + 4] + f[RTP_HEADER + 4..RTP_HEADER + 4 + n]
             + f[RTP_HEADER + n + 4..RTP_HEADER + n + 8] + f[RTP_HEADER + n + 8..];
    assert Unwrap(f)[..RTP_HEADER] == f[..RTP_HEADER];
    assert Unwrap(f)[RTP_HEADER..] == f[RTP_HEADER + 4..RTP_HEADER + 4 + n];
  }

  // ----- the transformers -----

  lemma PrefixSlice(s: seq<Byte>, n: nat, i: nat, j: nat)
    requires i <= j <= n <= |s|
    ensures s[..n][i..j] == s[i..j]
  {
  }

  /** memcpy between distinct buffers. */
  method CopyBytes(dst: array<Byte>, into: nat, src: array<Byte>, at: nat, n: nat)
    requires dst != src && into + n <= dst.Length && at + n <= src.Length
    modifies dst
    ensures dst[..into + n] == old(dst[..into]) + src[at..at + n]
    ensures dst[into + n..] == old(dst[into + n..])
  {
    for i := 0 to n
      invariant forall k :: into <= k < into + i ==> dst[k] == src[at + (k - into)]
      invariant forall k :: 0 <= k < into || into + i <= k < dst.Length ==> dst[k] == old(dst[k])
    {
      dst[into + i] := src[at + i];
    }
  }

  /** memcpy from a local variable. */
  method StoreBytes(dst: array<Byte>, into: nat, data: seq<Byte>)
    requires into + |data| <= dst.Length
    modifies dst
    ensures dst[..into + |data|] == old(dst[..into]) + data
    ensures dst[into + |data|..] == old(dst[into + |data|..])
  {
    for i := 0 to |data|
      invariant forall k :: into <= k < into + i ==> dst[k] == data[k - into]
      invariant forall k :: 0 <= k < into || into + i <= k < dst.Length ==> dst[k] == old(dst[k])
    {
      dst[into + i] := data[i];
    }
  }

  /** memmove towards the front of the same buffer. */
  method MoveDown(buf: array<Byte>, into: nat, at: nat, n: nat)
    requires into <= at && at + n <= buf.Length
    modifies buf
    ensures buf[..into + n] == old(buf[..into]) + old(buf[at..at + n])
    ensures buf[into + n..] == old(buf[into + n..])
  {
    for i := 0 to n
      invariant forall k :: into <= k < into + i ==> buf[k] == old(buf[..])[at + (k - into)]
      invariant forall k :: 0 <= k < into || into + i <= k < buf.Length ==> buf[k] == old(buf[..])[k]
    {
      buf[into + i] := buf[at + i];
    }
  }

  class Transformer {
    var frameCount: nat
    var errorCount: nat

    ghost predicate Valid()
      reads this
    {
      frameCount < U32_RANGE && errorCount < U32_RANGE
    }

    constructor ()
      ensures Valid() && frameCount == 0 && errorCount == 0
    {
      frameCount, errorCount := 0, 0;
    }

    method SenderSize(payloadType: nat, size: nat) returns (status: Status, encodedSize: nat)
      requires Valid()
      ensures status == Ok <==> payloadType < 96 && size + 8 + |Tail(frameCount)| <= 1300
      ensures status == Ok || status == NotSupported
      ensures status == Ok ==> encodedSize == size + 8 + |Tail(frameCount)|
    {
      encodedSize := 0;
      if payloadType >= FIRST_VIDEO_TYPE {
        return NotSupported, encodedSize;
      }
      var tailSize := |TAIL_TEXT| + |Decimal(frameCount)|;
      encodedSize := size + 8 + tailSize + 1;
      if encodedSize > MAX_ENCODED {
        return NotSupported, encodedSize;
      }
      status := Ok;
    }

    method SenderTransform(payloadType: nat, orig: array<Byte>, size: nat, encoded: array<Byte>)
        returns (status: Status, encodedSize: nat)
      requires Valid() && size <= orig.Length && orig != encoded
      requires Announced(size, frameCount) <= encoded.Length && encoded.Length < U32_RANGE
      modifies this`frameCount, encoded
      ensures Valid() && (status == Ok || status == NotSupported)
      ensures status == Ok <==> payloadType < 96 && size >= 12
      ensures status == Ok ==>
                && encodedSize == Announced(size, old(frameCount))
                && encoded[..encodedSize] == Layout(orig[..size], Tail(old(frameCount)))
                && frameCount == (old(frameCount) + 1) % U32_RANGE
      ensures status != Ok ==> frameCount == old(frameCount) && encoded[..] == old(encoded[..])
    {
      encodedSize := 0;
      if payloadType >= FIRST_VIDEO_TYPE || size < RTP_HEADER {
        return NotSupported, encodedSize;
      }
      var tail := Tail(frameCount);
      var payload := size - RTP_HEADER;
      ghost var packet := orig[..size];
      encodedSize := size + 8 + |tail|;
      CopyBytes(encoded, 0, orig, 0, RTP_HEADER);
      ghost var done := packet[..RTP_HEADER];
      assert orig[0..RTP_HEADER] == done && encoded[..RTP_HEADER] == done;
      var ofst := RTP_HEADER;
      StoreBytes(encoded, ofst, EncodeU32(payload));
      ofst := ofst + 4;
      done := done + EncodeU32(payload);
      CopyBytes(encoded, ofst, orig, RTP_HEADER, payload);
      assert orig[RTP_HEADER..RTP_HEADER + payload] == packet[RTP_HEADER..];
      ofst := ofst + payload;
      done := done + packet[RTP_HEADER..];
      StoreBytes(encoded, ofst, EncodeU32(|tail|));
      ofst := ofst + 4;
      done := done + EncodeU32(|tail|);
      assert encoded[..ofst] == done;
      StoreBytes(encoded, ofst, tail);
      assert encoded[..ofst + |tail|] == done + tail == Layout(packet, tail);
      frameCount := (frameCount + 1) % U32_RANGE;
      status := Ok;
    }

    /** The length word is read wherever the frame ends; it must be in the buffer, and not so
        large that the 32-bit sums of the source wrap. */
    method ReceiverSize(payloadType: nat, data: array<Byte>, size: nat)
        returns (status: Status, encodedSize: nat)
      requires Valid() && size <= data.Length < U32_RANGE
      requires payloadType < FIRST_VIDEO_TYPE ==>
                 RTP_HEADER + 4 <= data.Length && PayloadLength(data[..]) + RTP_HEADER + 8 < U32_RANGE
      modifies this`errorCount
      ensures Valid()
      ensures status == NotSupported <==> payloadType >= 96
      ensures status == Ok <==> payloadType < FIRST_VIDEO_TYPE && size >= RTP_HEADER + 4 && Accepts(data[..size])
      ensures status == Ok ==> encodedSize == |Unwrap(data[..size])|
      ensures errorCount == if status == BadData then (old(errorCount) + 1) % U32_RANGE else old(errorCount)
    {
      encodedSize := 0;
      if payloadType >= FIRST_VIDEO_TYPE {
        return NotSupported, encodedSize;
      }
      ghost var f := data[..size];
      var originalSize := LoadU32(data[..], RTP_HEADER);
      if size >= RTP_HEADER + 4 {
        PrefixSlice(data[..], size, RTP_HEADER, RTP_HEADER + 4);
        assert originalSize == PayloadLength(f);
      }
      if RTP_HEADER + originalSize + 8 > size {
        errorCount := (errorCount + 1) % U32_RANGE;
        return BadData, encodedSize;
      }
      var at := RTP_HEADER + originalSize + 4;
      var tailSize := LoadU32(data[..], at);
      PrefixSlice(data[..], size, at, at + 4);
      LittleUnfolded(data[..][at..at + 4]);
      var sum := (RTP_HEADER + originalSize + 8 + tailSize) % U32_RANGE;
      if sum != size {
        errorCount := (errorCount + 1) % U32_RANGE;
        return BadData, encodedSize;
      }
      encodedSize := RTP_HEADER + originalSize;
      status := Ok;
    }

    /** strncmp with "TAIL_": it stops at the first byte that differs. */
    method SameText(data: array<Byte>, at: nat) returns (same: bool)
      requires ComparisonEnds(data[..], at)
      ensures same <==> at + 5 <= data.Length && data[at..at + 5] == [84, 65, 73, 76, 95]
      ensures same == TextAt(data[..], at)
    {
      var k := 0;
      while k < |TAIL_TEXT| && data[at + k] == TAIL_TEXT[k]
        invariant k <= |TAIL_TEXT| && at + k <= data.Length
        invariant forall i :: 0 <= i < k ==> data[at + i] == TAIL_TEXT[i]
        invariant k < |TAIL_TEXT| ==> at + k < data.Length
      {
        k := k + 1;
      }
      same := k == |TAIL_TEXT|;
      if same {
        assert data[..][at..at + 5] == TAIL_TEXT;
      } else if at + 5 <= data.Length {
        assert data[..][at..at + 5][k] != TAIL_TEXT[k];
      }
    }

    /** Called after ReceiverSize has accepted the frame; `encoded` may be the frame itself. */
    method ReceiverTransform(data: array<Byte>, size: nat, encoded: array<Byte>)
        returns (status: Status, encodedSize: nat)
      requires Valid() && RTP_HEADER + 4 <= size <= data.Length < U32_RANGE && Accepts(data[..size])
      requires ComparisonEnds(data[..], TailStart(data[..size]))
      requires |Unwrap(data[..size])| <= encoded.Length
      modifies this, encoded
      ensures Valid() && frameCount == (old(frameCount) + 1) % U32_RANGE
      ensures var at := 12 + PayloadLength(old(data[..size])) + 8;
              status == Ok <==> at + 5 <= data.Length && old(data[..])[at..at + 5] == [84, 65, 73, 76, 95]
      ensures status == Ok || status == BadData
      ensures status == Ok ==>
                encodedSize == |Unwrap(old(data[..size]))|
                && encoded[..encodedSize] == Unwrap(old(data[..size])) && errorCount == old(errorCount)
      ensures status == BadData ==>
                encoded[..] == old(encoded[..]) && errorCount == (old(errorCount) + 1) % U32_RANGE
    {
      encodedSize := 0;
      ghost var f := data[..size];
      var originalSize := LoadU32(data[..size], RTP_HEADER);
      var ofst := RTP_HEADER + 4 + originalSize + 4;
      frameCount := (frameCount + 1) % U32_RANGE;
      assert originalSize == PayloadLength(f);
      PrefixSlice(data[..], size, 0, RTP_HEADER);
      PrefixSlice(data[..], size, RTP_HEADER + 4, RTP_HEADER + 4 + originalSize);
      var same := SameText(data, ofst);
      if !same {
        errorCount := (errorCount + 1) % U32_RANGE;
        return BadData, encodedSize;
      }
      if encoded != data {
        CopyBytes(encoded, 0, data, 0, RTP_HEADER);
        CopyBytes(encoded, RTP_HEADER, data, RTP_HEADER + 4, originalSize);
      } else {
        MoveDown(data, RTP_HEADER, RTP_HEADER + 4, originalSize);
      }
      encodedSize := RTP_HEADER + originalSize;
      status := Ok;
    }
  }
}
