/** The table-driven YUV420 to RGB565 conversion of color_convert.c. */
module ColorConvert {
  import opened Bytes

  const TABLE_ENTRIES := 65536

  datatype Format = Yuv420 | Rgb565 | Rgb565Be | OtherFormat

  // ----- one table entry -----

  function Limit(a: int): (r: int)
    ensures 0 <= r <= 255
  {
    if a > 255 then 255 else if a < 0 then 0 else a
  }

  /** The value of 0..255 that is nearest. */
  lemma LimitIsNearest(a: int, x: int)
    requires 0 <= x <= 255
    ensures (if a < Limit(a) then Limit(a) - a else a - Limit(a)) <= if a < x then x - a else a - x
  {
  }

  function Red(c: int, d: int, e: int): int {
    Limit((298 * c + 409 * e + 128) / 256)
  }

  function Green(c: int, d: int, e: int): int {
    Limit((298 * c - 100 * d - 208 * e + 128) / 256)
  }

  function Blue(c: int, d: int, e: int): int {
    Limit((298 * c + 516 * d + 128) / 256)
  }

  /** Five bits of red, six of green, five of blue. */
  function Pack(r: int, g: int, b: int): int {
    (r * 64 + g) * 32 + b
  }

  /** Exchange of the two bytes of a 16-bit value. */
  function SwapBytes(x: int): int {
    x / 256 + x % 256 * 256
  }

  /** What the source stores for quantised components; the low bits of u are taken from y0. */
  function Entry(bigEndian: bool, y0: int, u0: int, v0: int): int {
    var y, u, v := y0 * 4 + y0 % 4 - 16, u0 * 8 + y0 % 8 - 128, v0 * 8 + v0 % 8 - 128;
    var p := Pack(Red(y, u, v) / 8, Green(y, u, v) / 4, Blue(y, u, v) / 8);
    if bigEndian then SwapBytes(p) else p
  }

  lemma EntryFits(bigEndian: bool, y0: int, u0: int, v0: int)
    ensures 0 <= Entry(bigEndian, y0, u0, v0) < 65536
  {
    var y, u, v := y0 * 4 + y0 % 4 - 16, u0 * 8 + y0 % 8 - 128, v0 * 8 + v0 % 8 - 128;
    PackFits(Red(y, u, v), Green(y, u, v), Blue(y, u, v));
  }

  lemma PackFits(r: int, g: int, b: int)
    requires 0 <= r < 256 && 0 <= g < 256 && 0 <= b < 256
    ensures 0 <= Pack(r / 8, g / 4, b / 8) < 65536 && 0 <= SwapBytes(Pack(r / 8, g / 4, b / 8)) < 65536
  {
  }

  /** Read as its target reads it (the big-endian one has its bytes exchanged), the 16-bit unit
      x holds five bits of red, six of green and five of blue. */
  predicate Holds(x: int, bigEndian: bool, r: int, g: int, b: int) {
    var p := if bigEndian then x % 256 * 256 + x / 256 else x;
    0 <= x < 65536 && p / 2048 == r && p / 32 % 64 == g && p % 32 == b
  }

  lemma PackHolds(r: int, g: int, b: int)
    requires 0 <= r < 32 && 0 <= g < 64 && 0 <= b < 32
    ensures Holds(Pack(r, g, b), false, r, g, b) && Holds(SwapBytes(Pack(r, g, b)), true, r, g, b)
  {
    var row := r * 64 + g;
    assert row / 64 == r && row % 64 == g;
    SplitIndex(row, b, Pack(r, g, b));
    assert Pack(r, g, b) / 2048 == row / 64;
    SwapTwice(Pack(r, g, b));
  }

  lemma SwapTwice(p: int)
    requires 0 <= p < 65536
    ensures 0 <= SwapBytes(p) < 65536 && SwapBytes(p) % 256 * 256 + SwapBytes(p) / 256 == p
  {
  }

  /** The unit shows the leading bits of the colour that the table takes the quantised components
      for. */
  predicate Shows(x: int, bigEndian: bool, y0: int, u0: int, v0: int) {
    ShowsColor(x, bigEndian, y0 * 4 + y0 % 4 - 16, u0 * 8 + y0 % 8 - 128, v0 * 8 + v0 % 8 - 128)
  }

  predicate ShowsColor(x: int, bigEndian: bool, y: int, u: int, v: int) {
    Holds(x, bigEndian, Limit((298 * y + 409 * v + 128) / 256) / 8,
          Limit((298 * y - 100 * u - 208 * v + 128) / 256) / 4, Limit((298 * y + 516 * u + 128) / 256) / 8)
  }

  lemma PackedShows(bigEndian: bool, y: int, u: int, v: int, p: int)
    requires p == Pack(Red(y, u, v) / 8, Green(y, u, v) / 4, Blue(y, u, v) / 8)
    ensures ShowsColor(if bigEndian then SwapBytes(p) else p, bigEndian, y, u, v)
  {
    PackHolds(Red(y, u, v) / 8, Green(y, u, v) / 4, Blue(y, u, v) / 8);
  }

  /** What the table holds. */
  lemma EntryShows(bigEndian: bool, y0: int, u0: int, v0: int)
    ensures Shows(Entry(bigEndian, y0, u0, v0), bigEndian, y0, u0, v0)
  {
    var y, u, v := y0 * 4 + y0 % 4 - 16, u0 * 8 + y0 % 8 - 128, v0 * 8 + v0 % 8 - 128;
    var p := Pack(Red(y, u, v) / 8, Green(y, u, v) / 4, Blue(y, u, v) / 8);
    PackedShows(bigEndian, y, u, v, p);
    assert Entry(bigEndian, y0, u0, v0) == if bigEndian then SwapBytes(p) else p;
  }

  // ----- the index -----

  function Index(y0: int, u0: int, v0: int): int {
    y0 * 1024 + u0 * 32 + v0
  }

  /** The index is a bijection between the quantised triples and 0..65535. */
  lemma IndexBijective(y0: int, u0: int, v0: int, k: int)
    requires 0 <= y0 < 64 && 0 <= u0 < 32 && 0 <= v0 < 32
    ensures 0 <= Index(y0, u0, v0) < TABLE_ENTRIES
    ensures Index(y0, u0, v0) == k <==> y0 == k / 1024 && u0 == k / 32 % 32 && v0 == k % 32
  {
    var row := y0 * 32 + u0;
    assert Index(y0, u0, v0) == row * 32 + v0;
    SplitIndex(row, v0, k);
    SplitIndex(y0, u0, k / 32);
    assert k / 32 / 32 == k / 1024;
  }

  /** Division with remainder by 32. */
  lemma SplitIndex(q: int, r: int, k: int)
    requires 0 <= r < 32
    ensures q * 32 + r == k <==> q == k / 32 && r == k % 32
  {
  }

  /** The entry that belongs at position k. */
  function EntryAt(bigEndian: bool, k: int): int {
    Entry(bigEndian, k / 1024, k / 32 % 32, k % 32)
  }

  /** Positions that init_table has stored when its loops stand at (u0, v0, y0). */
  predicate Stored(k: int, u0: int, v0: int, y0: int) {
    var u, v, y := k / 32 % 32, k % 32, k / 1024;
    u < u0 || (u == u0 && (v < v0 || (v == v0 && y < y0)))
  }

  /** init_table: every one of the 65536 entries is initialised, each with its own value. */
  method InitTable(table: array<int>, bigEndian: bool)
    requires table.Length == TABLE_ENTRIES
    modifies table
    ensures forall k :: 0 <= k < TABLE_ENTRIES ==> table[k] == EntryAt(bigEndian, k)
    ensures forall k :: 0 <= k < TABLE_ENTRIES ==> Shows(table[k], bigEndian, k / 1024, k / 32 % 32, k % 32)
  {
    for u0 := 0 to 32
      invariant forall k :: 0 <= k < TABLE_ENTRIES && Stored(k, u0, 0, 0) ==> table[k] == EntryAt(bigEndian, k)
    {
      for v0 := 0 to 32
        invariant forall k :: 0 <= k < TABLE_ENTRIES && Stored(k, u0, v0, 0) ==> table[k] == EntryAt(bigEndian, k)
      {
        for y0 := 0 to 64
          invariant forall k :: 0 <= k < TABLE_ENTRIES && Stored(k, u0, v0, y0) ==> table[k] == EntryAt(bigEndian, k)
        {
          var idx := y0 * 1024 + u0 * 32 + v0;
          IndexBijective(y0, u0, v0, idx);
          table[idx] := Entry(bigEndian, y0, u0, v0);
          StoreNext(y0, u0, v0);
        }
      }
    }
    forall k | 0 <= k < TABLE_ENTRIES ensures Shows(table[k], bigEndian, k / 1024, k / 32 % 32, k % 32) {
      EntryShows(bigEndian, k / 1024, k / 32 % 32, k % 32);
    }
  }

  lemma StoreNext(y0: int, u0: int, v0: int)
    requires 0 <= y0 < 64 && 0 <= u0 < 32 && 0 <= v0 < 32
    ensures forall k :: 0 <= k < TABLE_ENTRIES && Stored(k, u0, v0, y0 + 1) ==>
              Stored(k, u0, v0, y0) || k == Index(y0, u0, v0)
  {
    forall k | 0 <= k < TABLE_ENTRIES && Stored(k, u0, v0, y0 + 1)
      ensures Stored(k, u0, v0, y0) || k == Index(y0, u0, v0)
    {
      IndexBijective(y0, u0, v0, k);
    }
  }

  // ----- the positions of the loop, for every width and height -----

  /** The inner loop handles two columns to a turn, also when the width is odd. */
  function Pairs(w: nat): nat {
    (w + 1) / 2
  }

  /** Pixels that the loop stores for one row. */
  function RowLen(w: nat): nat {
    2 * Pairs(w)
  }

  /** The running positions y_pos and rgb_idx at the start of row i. */
  function RowStart(w: nat, i: nat): nat {
    if i == 0 then 0 else RowStart(w, i - 1) + RowLen(w)
  }

  function PixelAt(w: nat, i: nat, j: nat): nat {
    RowStart(w, i) + j
  }

  /** The running position u_pos at the start of row i: behind every even row it goes back by
      half a row. */
  function ChromaRow(w: nat, i: nat): (pos: nat)
    decreases i
  {
    if i == 0 then 0
    else ChromaRow(w, i - 1) + Pairs(w) - if (i - 1) % 2 == 0 then w / 2 else 0
  }

  function ChromaAt(w: nat, i: nat, j: nat): nat {
    ChromaRow(w, i) + j / 2
  }

  lemma MulMono(x: int, y: int, k: nat)
    requires x <= y
    ensures x * k <= y * k
  {
  }

  lemma Scaled(k: int, x: int, y: int)
    ensures k * x * y == k * (x * y) == x * (k * y)
  {
  }

  lemma Split(x: int, y: int, k: int)
    ensures (x + y) * k == x * k + y * k
  {
  }

  /** Both positions in closed form. */
  lemma {:induction false} RowStartIs(w: nat, i: nat)
    ensures RowStart(w, i) == i * RowLen(w)
  {
    if i > 0 {
      RowStartIs(w, i - 1);
      Split(i - 1, 1, RowLen(w));
    }
  }

  lemma {:induction false} ChromaRowIs(w: nat, i: nat, pairs: nat, up: nat, half: nat)
    requires pairs == Pairs(w) && up == (i + 1) / 2 && half == w / 2
    ensures ChromaRow(w, i) == i * pairs - up * half
    decreases i
  {
    if i > 0 {
      ChromaRowIs(w, i - 1, pairs, i / 2, half);
      Split(i - 1, 1, pairs);
      if i % 2 == 1 {
        Split(i / 2, 1, half);
        assert up == i / 2 + 1;
      } else {
        assert up == i / 2;
      }
    }
  }

  lemma {:induction false} PositionsGrow(w: nat, i: nat, k: nat)
    requires i <= k
    ensures RowStart(w, i) <= RowStart(w, k) && ChromaRow(w, i) <= ChromaRow(w, k)
    decreases k
  {
    if i < k {
      PositionsGrow(w, i, k - 1);
    }
  }

  /** A frame: its size, and where its u and v planes start. */
  datatype Planes = Planes(w: nat, h: nat, u: nat, v: nat)

  function PlanesOf(w: nat, h: nat): Planes {
    Planes(w, h, w * h, w * h * 5 / 4)
  }

  /** The accesses at row i, column j are inside a source of srcLen bytes and an output of
      `pixels` 16-bit units. */
  predicate InsideAt(f: Planes, i: nat, j: nat, srcLen: nat, pixels: nat) {
    && PixelAt(f.w, i, j) < srcLen && PixelAt(f.w, i, j) < pixels
    && f.u + ChromaAt(f.w, i, j) < srcLen && f.v + ChromaAt(f.w, i, j) < srcLen
  }

  ghost predicate AllInside(f: Planes, srcLen: nat, pixels: nat) {
    forall i: nat, j: nat :: i < f.h && j < RowLen(f.w) ==> InsideAt(f, i, j, srcLen, pixels)
  }

  /** The last turn makes the largest accesses of all. */
  lemma LastIsLargest(f: Planes, i: nat, j: nat)
    requires i < f.h && j < RowLen(f.w)
    ensures PixelAt(f.w, i, j) <= PixelAt(f.w, f.h - 1, RowLen(f.w) - 1)
    ensures ChromaAt(f.w, i, j) <= ChromaAt(f.w, f.h - 1, RowLen(f.w) - 1)
  {
    PositionsGrow(f.w, i, f.h - 1);
  }

  lemma LastDecides(f: Planes, srcLen: nat, pixels: nat)
    requires 0 < f.w && 0 < f.h
    ensures AllInside(f, srcLen, pixels) <==> InsideAt(f, f.h - 1, RowLen(f.w) - 1, srcLen, pixels)
  {
    if InsideAt(f, f.h - 1, RowLen(f.w) - 1, srcLen, pixels) {
      forall i: nat, j: nat | i < f.h && j < RowLen(f.w) ensures InsideAt(f, i, j, srcLen, pixels) {
        LastIsLargest(f, i, j);
      }
    }
  }

  // ----- which sizes the tests of convert_color protect -----

  /** Both numbers even, or two columns; or nothing at all. */
  predicate SafeSize(w: nat, h: nat) {
    w == 0 || h == 0 || (w % 2 == 0 && (h % 2 == 0 || w == 2))
  }

  /** The last turn for width 2a and height 2b; p is a * b. */
  lemma LastEvenEven(a: nat, b: nat, p: nat)
    requires 0 < a && 0 < b && p == a * b
    ensures 2 * a * (2 * b) == 4 * p && PixelAt(2 * a, 2 * b - 1, 2 * a - 1) == 4 * p - 1
    ensures ChromaAt(2 * a, 2 * b - 1, 2 * a - 1) == p - 1
  {
    Scaled(2, a, 2 * b);
    Scaled(2, b, a);
    Scaled(2, b, 2 * a);
    Split(2 * b, -1, 2 * a);
    Split(2 * b, -1, a);
    RowStartIs(2 * a, 2 * b - 1);
    ChromaRowIs(2 * a, 2 * b - 1, a, b, a);
  }

  /** The last turn for width 2a and height 2b + 1. */
  lemma LastEvenOdd(a: nat, b: nat, p: nat)
    requires 0 < a && p == a * b
    ensures 2 * a * (2 * b + 1) == 4 * p + 2 * a && PixelAt(2 * a, 2 * b, 2 * a - 1) == 4 * p + 2 * a - 1
    ensures ChromaAt(2 * a, 2 * b, 2 * a - 1) == p + a - 1
  {
    Scaled(2, b, a);
    Scaled(2, b, 2 * a);
    Split(2 * b, 1, 2 * a);
    RowStartIs(2 * a, 2 * b);
    ChromaRowIs(2 * a, 2 * b, a, b, a);
  }

  lemma OddProducts(a: nat, h: nat, p: nat, k: nat)
    requires 0 < h && p == a * h && k == h / 2 * a
    ensures (2 * a + 1) * h == 2 * p + h && 2 * k <= p && (h == 1 ==> k == 0) && (h == 2 ==> 2 * k == p)
  {
    Split(2 * a, 1, h);
    Scaled(2, a, h);
    Scaled(2, h / 2, a);
    MulMono(2 * (h / 2), h, a);
  }

  lemma OddChroma(a: nat, h: nat, p: nat, k: nat)
    requires 0 < h && p == a * h && k == h / 2 * a
    ensures ChromaAt(2 * a + 1, h - 1, 2 * a + 1) == p + h - 1 - k
  {
    Split(h, -1, a + 1);
    Split(a, 1, h);
    ChromaRowIs(2 * a + 1, h - 1, a + 1, h / 2, a);
  }

  /** A test of one place, given its two positions. */
  lemma InsideFrom(f: Planes, i: nat, j: nat, pixel: nat, chroma: nat, srcLen: nat, pixels: nat)
    requires pixel == PixelAt(f.w, i, j) && chroma == ChromaAt(f.w, i, j)
    ensures InsideAt(f, i, j, srcLen, pixels) <==>
            pixel < srcLen && pixel < pixels && f.u + chroma < srcLen && f.v + chroma < srcLen
  {
  }

  lemma OutsideFrom(f: Planes, i: nat, j: nat, chroma: nat, srcLen: nat, pixels: nat)
    requires chroma == ChromaAt(f.w, i, j) && f.v + chroma >= srcLen
    ensures !InsideAt(f, i, j, srcLen, pixels)
  {
  }

  lemma OddArithmetic(h: nat, p: nat, k: nat, area: nat)
    requires 0 < h && area == 2 * p + h && 2 * k <= p && (h == 1 ==> k == 0) && (h == 2 ==> 2 * k == p)
    ensures area * 5 / 4 + (p + h - 1 - k) >= area * 3 / 2
  {
  }

  /** The chroma position of the last turn for an odd width: beyond the end of the source. */
  lemma LastOddWidth(w: nat, h: nat, a: nat, area: nat) returns (chroma: nat)
    requires 0 < h && w == 2 * a + 1 && area == w * h
    ensures chroma == ChromaAt(w, h - 1, RowLen(w) - 1) && area * 5 / 4 + chroma >= area * 3 / 2
  {
    var p, k := a * h, h / 2 * a;
    OddProducts(a, h, p, k);
    OddChroma(a, h, p, k);
    chroma := p + h - 1 - k;
    OddArithmetic(h, p, k, area);
  }

  lemma InsideOddWidth(f: Planes, a: nat, area: nat, srcLen: nat, pixels: nat)
    requires 0 < f.h && f.w == 2 * a + 1 && area == f.w * f.h && f.v == area * 5 / 4 && srcLen == area * 3 / 2
    ensures !InsideAt(f, f.h - 1, RowLen(f.w) - 1, srcLen, pixels)
  {
    var chroma := LastOddWidth(f.w, f.h, a, area);
    OutsideFrom(f, f.h - 1, RowLen(f.w) - 1, chroma, srcLen, pixels);
  }

  lemma EvenOddArithmetic(a: nat, p: nat, area: nat, dstLen: nat)
    requires 0 < a && area == 4 * p + 2 * a && dstLen >= area * 2
    ensures area * 5 / 4 + (p + a - 1) < area * 3 / 2 <==> a == 1
    ensures area - 1 < area * 3 / 2 && area + (p + a - 1) < area * 3 / 2 && area - 1 < dstLen / 2
  {
    assert area * 3 / 2 == 6 * p + 3 * a && area * 5 / 4 == 5 * p + 2 * a + a / 2;
  }

  lemma InsideEvenOdd(f: Planes, a: nat, b: nat, area: nat, srcLen: nat, dstLen: nat)
    requires 0 < a && f.w == 2 * a && f.h == 2 * b + 1 && area == f.w * f.h && f.u == area && f.v == area * 5 / 4
    requires srcLen == area * 3 / 2 && dstLen >= area * 2
    ensures InsideAt(f, f.h - 1, RowLen(f.w) - 1, srcLen, dstLen / 2) <==> a == 1
  {
    var p := a * b;
    LastEvenOdd(a, b, p);
    assert area == 2 * a * (2 * b + 1) == 4 * p + 2 * a;
    assert RowLen(f.w) == 2 * a;
    EvenOddArithmetic(a, p, area, dstLen);
    InsideFrom(f, 2 * b, 2 * a - 1, area - 1, p + a - 1, srcLen, dstLen / 2);
  }

  lemma InsideEvenEven(f: Planes, a: nat, b: nat, area: nat, srcLen: nat, dstLen: nat)
    requires 0 < a && 0 < b && f.w == 2 * a && f.h == 2 * b && area == f.w * f.h && f.u == area && f.v == area * 5 / 4
    requires srcLen == area * 3 / 2 && dstLen >= area * 2
    ensures InsideAt(f, f.h - 1, RowLen(f.w) - 1, srcLen, dstLen / 2)
  {
    var p := a * b;
    LastEvenEven(a, b, p);
    assert area == 4 * p && srcLen == 6 * p && f.v == 5 * p;
  }

  /** Given that a frame passes the two size tests, all its accesses are inside if and only if
      width and height are even, or the width is 2 (or the frame is empty).  How large the
      output is beyond the test makes no difference. */
  lemma InsideExactly(w: nat, h: nat, srcLen: nat, dstLen: nat)
    requires srcLen == w * h * 3 / 2 && dstLen >= w * h * 2
    ensures AllInside(PlanesOf(w, h), srcLen, dstLen / 2) <==> SafeSize(w, h)
  {
    if 0 < w && 0 < h {
      var area := w * h;
      LastDecides(PlanesOf(w, h), srcLen, dstLen / 2);
      SafeExactly(PlanesOf(w, h), w / 2, h / 2, area, srcLen, dstLen);
    }
  }

  lemma SafeExactly(f: Planes, a: nat, b: nat, area: nat, srcLen: nat, dstLen: nat)
    requires 0 < f.w && 0 < f.h && a == f.w / 2 && b == f.h / 2
    requires area == f.w * f.h && f.u == area && f.v == area * 5 / 4 && srcLen == area * 3 / 2 && dstLen >= area * 2
    ensures InsideAt(f, f.h - 1, RowLen(f.w) - 1, srcLen, dstLen / 2) <==> SafeSize(f.w, f.h)
  {
    if f.w % 2 == 1 {
      InsideOddWidth(f, a, area, srcLen, dstLen / 2);
    } else if f.h % 2 == 1 {
      InsideEvenOdd(f, a, b, area, srcLen, dstLen);
    } else {
      InsideEvenEven(f, a, b, area, srcLen, dstLen);
    }
  }

  /** The output alone overflows if and only if it has fewer than two bytes for each of the
      pixels that the loop stores, which for an odd width are more than the frame has. */
  lemma OutputExactly(w: nat, h: nat, pixels: nat)
    requires 0 < w && 0 < h
    ensures (forall i: nat, j: nat :: i < h && j < RowLen(w) ==> PixelAt(w, i, j) < pixels)
            <==> h * (w + w % 2) <= pixels
  {
    var last := PixelAt(w, h - 1, RowLen(w) - 1);
    RowStartIs(w, h - 1);
    Split(h - 1, 1, RowLen(w));
    if last < pixels {
      forall i: nat, j: nat | i < h && j < RowLen(w) ensures PixelAt(w, i, j) < pixels {
        LastIsLargest(PlanesOf(w, h), i, j);
      }
    }
  }

  /** A frame of 4 x 1 pixels passes the tests with 6 and 8 bytes, and the last turn reads
      byte 6 of the source. */
  lemma FourByOneOverruns()
    ensures 4 * 1 * 3 / 2 == 6 && 4 * 1 * 5 / 4 + ChromaAt(4, 0, 2) == 6 && !AllInside(PlanesOf(4, 1), 6, 4)
  {
    InsideExactly(4, 1, 6, 8);
  }

  /** A frame of 3 x 2 pixels passes them with 9 and 12 bytes; the last turn stores pixels 6
      and 7 of an output of 6, and reads byte 9 of the source. */
  lemma ThreeByTwoOverruns()
    ensures 3 * 2 * 3 / 2 == 9 && PixelAt(3, 1, 3) == 7 && 3 * 2 * 5 / 4 + ChromaAt(3, 1, 2) == 9
    ensures !AllInside(PlanesOf(3, 2), 9, 6)
  {
    InsideExactly(3, 2, 9, 12);
  }

  // ----- the conversion loop -----

  /** The samples at row i, column j, as the loop finds them. */
  function LookedUp(src: seq<Byte>, f: Planes, i: nat, j: nat): (k: int)
    requires InsideAt(f, i, j, |src|, PixelAt(f.w, i, j) + 1)
    ensures 0 <= k < TABLE_ENTRIES
  {
    var y: int := src[PixelAt(f.w, i, j)];
    var u: int := src[f.u + ChromaAt(f.w, i, j)];
    var v: int := src[f.v + ChromaAt(f.w, i, j)];
    Index(y / 4, u / 8, v / 8)
  }

  predicate Converted(src: seq<Byte>, table: seq<int>, dst: seq<int>, f: Planes, i: nat, j: nat)
    requires |table| == TABLE_ENTRIES && InsideAt(f, i, j, |src|, |dst|)
  {
    dst[PixelAt(f.w, i, j)] == table[LookedUp(src, f, i, j)]
  }

  /** The rows above i, and row i up to column j. */
  predicate Before(r: nat, c: nat, i: nat, j: nat) {
    r < i || (r == i && c < j)
  }

  ghost predicate DoneUpTo(src: seq<Byte>, table: seq<int>, dst: seq<int>, f: Planes, i: nat, j: nat)
    requires |table| == TABLE_ENTRIES && AllInside(f, |src|, |dst|)
  {
    forall r: nat, c: nat :: r < f.h && c < RowLen(f.w) && Before(r, c, i, j) ==>
      InsideAt(f, r, c, |src|, |dst|) && Converted(src, table, dst, f, r, c)
  }

  /** Rows do not overlap: a position determines its row and column. */
  lemma RowColumn(w: nat, r: nat, c: nat, r': nat, c': nat)
    requires c < RowLen(w) && c' < RowLen(w) && PixelAt(w, r, c) == PixelAt(w, r', c')
    ensures r == r' && c == c'
  {
    if r < r' {
      PositionsGrow(w, r + 1, r');
    } else if r' < r {
      PositionsGrow(w, r' + 1, r);
    }
  }

  /** Storing the entry of pixel (i, j) leaves the earlier pixels alone. */
  lemma StorePixel(src: seq<Byte>, table: seq<int>, dst: seq<int>, f: Planes, i: nat, j: nat, pos: nat, x: int)
    requires |table| == TABLE_ENTRIES && AllInside(f, |src|, |dst|) && i < f.h && j < RowLen(f.w)
    requires InsideAt(f, i, j, |src|, |dst|) && pos == PixelAt(f.w, i, j) && x == table[LookedUp(src, f, i, j)]
    requires DoneUpTo(src, table, dst, f, i, j)
    ensures DoneUpTo(src, table, dst[pos := x], f, i, j + 1)
  {
    var dst' := dst[pos := x];
    forall r: nat, c: nat | r < f.h && c < RowLen(f.w) && Before(r, c, i, j + 1)
      ensures InsideAt(f, r, c, |src|, |dst'|) && Converted(src, table, dst', f, r, c)
    {
      if Before(r, c, i, j) {
        if PixelAt(f.w, r, c) == pos {
          RowColumn(f.w, r, c, i, j);
        }
      } else {
        assert r == i && c == j;
      }
    }
  }

  lemma RowDone(src: seq<Byte>, table: seq<int>, dst: seq<int>, f: Planes, i: nat)
    requires |table| == TABLE_ENTRIES && AllInside(f, |src|, |dst|) && DoneUpTo(src, table, dst, f, i, RowLen(f.w))
    ensures DoneUpTo(src, table, dst, f, i + 1, 0)
  {
    forall r: nat, c: nat | r < f.h && c < RowLen(f.w) && Before(r, c, i + 1, 0)
      ensures InsideAt(f, r, c, |src|, |dst|) && Converted(src, table, dst, f, r, c)
    {
      assert Before(r, c, i, RowLen(f.w));
    }
  }

  /** One look-up and store of the inner loop: pixel (i, j) at running positions yPos and uPos. */
  method StoreOne(table: array<int>, src: array<Byte>, dst: array<int>, f: Planes, ghost i: nat, ghost j: nat,
                  yPos: nat, uPos: nat, rgbIdx: nat)
    requires table.Length == TABLE_ENTRIES && table != dst && AllInside(f, src.Length, dst.Length)
    requires i < f.h && j < RowLen(f.w) && yPos == rgbIdx == PixelAt(f.w, i, j) && uPos == ChromaAt(f.w, i, j)
    requires DoneUpTo(src[..], table[..], dst[..], f, i, j)
    modifies dst
    ensures DoneUpTo(src[..], table[..], dst[..], f, i, j + 1)
    ensures forall k :: 0 <= k < dst.Length && k != rgbIdx ==> dst[k] == old(dst[k])
  {
    assert InsideAt(f, i, j, src.Length, dst.Length);
    var y: int, u: int, v: int := src[yPos], src[f.u + uPos], src[f.v + uPos];
    var yIdx := y / 4 * 1024;
    var uvIdx := u / 8 * 32 + v / 8;
    assert yIdx + uvIdx == LookedUp(src[..], f, i, j);
    StorePixel(src[..], table[..], dst[..], f, i, j, rgbIdx, table[yIdx + uvIdx]);
    dst[rgbIdx] := table[yIdx + uvIdx];
    assert dst[..] == old(dst[..])[rgbIdx := table[yIdx + uvIdx]];
  }

  /** The inner loop: row i, two pixels to a turn. */
  method ConvertRow(table: array<int>, src: array<Byte>, dst: array<int>, f: Planes, i: nat,
                    yPos0: nat, uPos0: nat, rgbIdx0: nat)
      returns (yPos: nat, uPos: nat, rgbIdx: nat)
    requires table.Length == TABLE_ENTRIES && table != dst && AllInside(f, src.Length, dst.Length)
    requires i < f.h && yPos0 == rgbIdx0 == RowStart(f.w, i) && uPos0 == ChromaRow(f.w, i)
    requires DoneUpTo(src[..], table[..], dst[..], f, i, 0)
    modifies dst
    ensures DoneUpTo(src[..], table[..], dst[..], f, i, RowLen(f.w))
    ensures forall k :: rgbIdx <= k < dst.Length ==> dst[k] == old(dst[k])
    ensures yPos == rgbIdx == yPos0 + RowLen(f.w) && uPos == uPos0 + Pairs(f.w)
  {
    yPos, uPos, rgbIdx := yPos0, uPos0, rgbIdx0;
    var j := 0;
    while j < f.w
      invariant 0 <= j <= RowLen(f.w) && j % 2 == 0
      invariant yPos == rgbIdx == yPos0 + j && uPos == uPos0 + j / 2
      invariant DoneUpTo(src[..], table[..], dst[..], f, i, j)
      invariant forall k :: rgbIdx <= k < dst.Length ==> dst[k] == old(dst[k])
    {
      StoreOne(table, src, dst, f, i, j, yPos, uPos, rgbIdx);
      rgbIdx := rgbIdx + 1;
      StoreOne(table, src, dst, f, i, j + 1, yPos + 1, uPos, rgbIdx);
      rgbIdx := rgbIdx + 1;
      yPos := yPos + 2;
      uPos := uPos + 1;
      j := j + 2;
    }
  }

  /** yuv420_to_rgb565 with its running positions, for every size whose accesses are inside:
      pixel by pixel the table entry of the samples that it looks up, and nothing behind the
      pixels that it stores. */
  method Yuv420ToRgb565(table: array<int>, width: nat, height: nat, src: array<Byte>, dst: array<int>)
    requires table.Length == TABLE_ENTRIES && table != dst && AllInside(PlanesOf(width, height), src.Length, dst.Length)
    modifies dst
    ensures DoneUpTo(src[..], table[..], dst[..], PlanesOf(width, height), height, 0)
    ensures forall k :: RowStart(width, height) <= k < dst.Length ==> dst[k] == old(dst[k])
  {
    var f := PlanesOf(width, height);
    var yPos, uPos, rgbIdx := 0, 0, 0;
    for i := 0 to height
      invariant yPos == rgbIdx == RowStart(width, i) && uPos == ChromaRow(width, i)
      invariant DoneUpTo(src[..], table[..], dst[..], f, i, 0)
      invariant forall k :: rgbIdx <= k < dst.Length ==> dst[k] == old(dst[k])
    {
      yPos, uPos, rgbIdx := ConvertRow(table, src, dst, f, i, yPos, uPos, rgbIdx);
      // a chroma row serves two pixel rows
      if i % 2 == 0 {
        uPos := uPos - width / 2;
      }
      RowDone(src[..], table[..], dst[..], f, i);
    }
  }

  // ----- frames of even width and height -----

  /** What pixel (r, c) has to become: the entry of its own luma sample and of the chroma
      samples of its 2 x 2 square.  The planes are stored row by row: `area` bytes of luma, a
      quarter of that for u, the same for v. */
  function Wanted(bigEndian: bool, src: seq<Byte>, w: nat, h: nat, area: nat, r: nat, c: nat): int
    requires w % 2 == 0 && h % 2 == 0 && area == w * h && |src| == area * 3 / 2 && r < h && c < w
  {
    InsidePlanes(w, h, area, r, c);
    var luma, chroma := r * w + c, r / 2 * (w / 2) + c / 2;
    Entry(bigEndian, src[luma] / 4, src[area + chroma] / 8, src[area + area / 4 + chroma] / 8)
  }

  /** A row-major position lies inside its plane. */
  lemma InsidePlane(rows: nat, cols: nat, r: nat, c: nat)
    requires r < rows && c < cols
    ensures r * cols + c < rows * cols
  {
    MulMono(r + 1, rows, cols);
    Split(r, 1, cols);
  }

  /** Row-major positions and their bounds. */
  lemma InsidePlanes(w: nat, h: nat, area: nat, r: nat, c: nat)
    requires w % 2 == 0 && h % 2 == 0 && area == w * h && r < h && c < w
    ensures r * w + c < area && r / 2 * (w / 2) + c / 2 < area / 4 && area % 4 == 0
  {
    var a, b := w / 2, h / 2;
    InsidePlane(h, w, r, c);
    InsidePlane(b, a, r / 2, c / 2);
    assert area == 4 * (b * a) by {
      assert w == 2 * a && h == 2 * b;
    }
  }

  lemma EvenPixel(w: nat, r: nat, c: nat)
    requires w % 2 == 0
    ensures RowLen(w) == w && PixelAt(w, r, c) == r * w + c
  {
    RowStartIs(w, r);
  }

  lemma EvenChroma(w: nat, r: nat, c: nat)
    requires w % 2 == 0
    ensures ChromaAt(w, r, c) == r / 2 * (w / 2) + c / 2
  {
    var a, up := w / 2, (r + 1) / 2;
    ChromaRowIs(w, r, a, up, a);
    Split(r, -up, a);
    assert r - up == r / 2;
  }

  /** The table that init_table leaves for a format. */
  ghost predicate TableOf(bigEndian: bool, table: seq<int>) {
    |table| == TABLE_ENTRIES && forall k :: 0 <= k < TABLE_ENTRIES ==> table[k] == EntryAt(bigEndian, k)
  }

  ghost predicate PixelOk(bigEndian: bool, src: seq<Byte>, dst: seq<int>, w: nat, h: nat, area: nat, r: nat, c: nat)
    requires w % 2 == 0 && h % 2 == 0 && area == w * h && |src| == area * 3 / 2 && r < h && c < w
  {
    0 <= r * w + c < |dst| && dst[r * w + c] == Wanted(bigEndian, src, w, h, area, r, c)
  }

  /** The pixel at this position shows its own luma sample and this chroma sample; the luma plane
      has `area` bytes. */
  predicate SampleShows(bigEndian: bool, src: seq<Byte>, dst: seq<int>, area: nat, luma: nat, chroma: nat) {
    && luma < |dst| && luma < |src| && area + area / 4 + chroma < |src|
    && Shows(dst[luma], bigEndian, src[luma] / 4, src[area + chroma] / 8, src[area + area / 4 + chroma] / 8)
  }

  /** Pixel (r, c) shows its own luma sample and the chroma samples of its 2 x 2 square. */
  predicate PixelShows(bigEndian: bool, src: seq<Byte>, dst: seq<int>, w: nat, area: nat, r: nat, c: nat) {
    SampleShows(bigEndian, src, dst, area, r * w + c, r / 2 * (w / 2) + c / 2)
  }

  ghost predicate FrameShows(bigEndian: bool, src: seq<Byte>, dst: seq<int>, w: nat, h: nat) {
    forall r: nat, c: nat :: r < h && c < w ==> PixelShows(bigEndian, src, dst, w, w * h, r, c)
  }

  lemma SampleIsShown(bigEndian: bool, src: seq<Byte>, dst: seq<int>, area: nat, luma: nat, chroma: nat)
    requires luma < |dst| && luma < |src| && area + area / 4 + chroma < |src|
    requires dst[luma] == Entry(bigEndian, src[luma] / 4, src[area + chroma] / 8, src[area + area / 4 + chroma] / 8)
    ensures SampleShows(bigEndian, src, dst, area, luma, chroma)
  {
    EntryShows(bigEndian, src[luma] / 4, src[area + chroma] / 8, src[area + area / 4 + chroma] / 8);
  }

  lemma PixelIsShown(bigEndian: bool, src: seq<Byte>, dst: seq<int>, w: nat, h: nat, area: nat, r: nat, c: nat)
    requires w % 2 == 0 && h % 2 == 0 && area == w * h && |src| == area * 3 / 2 && r < h && c < w
    requires PixelOk(bigEndian, src, dst, w, h, area, r, c)
    ensures PixelShows(bigEndian, src, dst, w, area, r, c)
  {
    var luma, chroma := Positions(w, r, c);
    WantedIsShown(bigEndian, src, dst, w, h, area, r, c, luma, chroma);
  }

  lemma Positions(w: nat, r: nat, c: nat) returns (luma: nat, chroma: nat)
    ensures luma == r * w + c && chroma == r / 2 * (w / 2) + c / 2
  {
    luma, chroma := r * w + c, r / 2 * (w / 2) + c / 2;
  }

  lemma WantedIsShown(bigEndian: bool, src: seq<Byte>, dst: seq<int>, w: nat, h: nat, area: nat, r: nat, c: nat,
                      luma: nat, chroma: nat)
    requires w % 2 == 0 && h % 2 == 0 && area == w * h && |src| == area * 3 / 2 && r < h && c < w
    requires luma == r * w + c && chroma == r / 2 * (w / 2) + c / 2
    requires luma < |dst| && dst[luma] == Wanted(bigEndian, src, w, h, area, r, c)
    ensures SampleShows(bigEndian, src, dst, area, luma, chroma)
  {
    WantedIs(bigEndian, src, w, h, area, r, c, luma, chroma);
    SampleIsShown(bigEndian, src, dst, area, luma, chroma);
  }

  ghost predicate FrameOk(bigEndian: bool, src: seq<Byte>, dst: seq<int>, w: nat, h: nat)
    requires w % 2 == 0 && h % 2 == 0 && |src| == w * h * 3 / 2
  {
    forall r: nat, c: nat :: r < h && c < w ==> PixelOk(bigEndian, src, dst, w, h, w * h, r, c)
  }

  lemma EntryOf(bigEndian: bool, table: seq<int>, y: Byte, u: Byte, v: Byte)
    requires TableOf(bigEndian, table)
    ensures var k := Index(y / 4, u / 8, v / 8);
            0 <= k < TABLE_ENTRIES && table[k] == Entry(bigEndian, y / 4, u / 8, v / 8)
  {
    IndexBijective(y / 4, u / 8, v / 8, Index(y / 4, u / 8, v / 8));
  }

  lemma WantedIs(bigEndian: bool, src: seq<Byte>, w: nat, h: nat, area: nat, r: nat, c: nat, luma: nat, chroma: nat)
    requires w % 2 == 0 && h % 2 == 0 && area == w * h && |src| == area * 3 / 2 && r < h && c < w
    requires luma == r * w + c && chroma == r / 2 * (w / 2) + c / 2
    ensures luma < area && chroma < area / 4 && area % 4 == 0
    ensures Wanted(bigEndian, src, w, h, area, r, c)
            == Entry(bigEndian, src[luma] / 4, src[area + chroma] / 8, src[area + area / 4 + chroma] / 8)
  {
    InsidePlanes(w, h, area, r, c);
  }

  lemma LookedUpIs(src: seq<Byte>, f: Planes, r: nat, c: nat, luma: nat, chroma: nat)
    requires InsideAt(f, r, c, |src|, luma + 1) && luma == PixelAt(f.w, r, c) && chroma == ChromaAt(f.w, r, c)
    ensures f.u + chroma < |src| && f.v + chroma < |src| && luma < |src|
    ensures LookedUp(src, f, r, c) == Index(src[luma] / 4, src[f.u + chroma] / 8, src[f.v + chroma] / 8)
  {
  }

  /** The look-up in an initialised table yields exactly what the pixel has to become. */
  lemma LookUpIsWanted(bigEndian: bool, src: seq<Byte>, table: seq<int>, f: Planes, r: nat, c: nat)
    requires TableOf(bigEndian, table) && f.w % 2 == 0 && f.h % 2 == 0 && f.u == f.w * f.h && f.v == f.u * 5 / 4
    requires |src| == f.u * 3 / 2 && r < f.h && c < f.w && InsideAt(f, r, c, |src|, PixelAt(f.w, r, c) + 1)
    ensures table[LookedUp(src, f, r, c)] == Wanted(bigEndian, src, f.w, f.h, f.u, r, c)
  {
    var luma, chroma := PixelAt(f.w, r, c), ChromaAt(f.w, r, c);
    EvenPixel(f.w, r, c);
    EvenChroma(f.w, r, c);
    WantedIs(bigEndian, src, f.w, f.h, f.u, r, c, luma, chroma);
    LookedUpIs(src, f, r, c, luma, chroma);
    EntryOf(bigEndian, table, src[luma], src[f.u + chroma], src[f.v + chroma]);
  }

  lemma FrameIsWanted(bigEndian: bool, src: seq<Byte>, table: seq<int>, dst: seq<int>, f: Planes)
    requires TableOf(bigEndian, table) && f.w % 2 == 0 && f.h % 2 == 0 && f == PlanesOf(f.w, f.h)
    requires |src| == f.u * 3 / 2
    requires AllInside(f, |src|, |dst|) && DoneUpTo(src, table, dst, f, f.h, 0)
    ensures FrameOk(bigEndian, src, dst, f.w, f.h)
  {
    forall r: nat, c: nat | r < f.h && c < f.w ensures PixelOk(bigEndian, src, dst, f.w, f.h, f.w * f.h, r, c) {
      assert Before(r, c, f.h, 0) && c < RowLen(f.w);
      EvenPixel(f.w, r, c);
      LookUpIsWanted(bigEndian, src, table, f, r, c);
    }
  }

  lemma FrameIsShown(bigEndian: bool, src: seq<Byte>, dst: seq<int>, w: nat, h: nat)
    requires w % 2 == 0 && h % 2 == 0 && |src| == w * h * 3 / 2 && FrameOk(bigEndian, src, dst, w, h)
    ensures FrameShows(bigEndian, src, dst, w, h)
  {
    forall r: nat, c: nat | r < h && c < w ensures PixelShows(bigEndian, src, dst, w, w * h, r, c) {
      assert PixelOk(bigEndian, src, dst, w, h, w * h, r, c);
      PixelIsShown(bigEndian, src, dst, w, h, w * h, r, c);
    }
  }

  function ImageSize(format: Format, width: nat, height: nat): nat {
    match format
    case Yuv420 => width * height * 3 / 2
    case Rgb565 => width * height * 2
    case Rgb565Be => width * height * 2
    case OtherFormat => 0
  }

  /** The two size tests of convert_color, and a target that it can convert to. */
  predicate Passes(target: Format, width: nat, height: nat, srcSize: nat, dstSize: nat) {
    && (target == Rgb565 || target == Rgb565Be)
    && srcSize == ImageSize(Yuv420, width, height) && dstSize >= ImageSize(target, width, height)
  }

  lemma AllInsideMore(f: Planes, srcLen: nat, pixels: nat, more: nat)
    requires AllInside(f, srcLen, pixels) && pixels <= more
    ensures AllInside(f, srcLen, more)
  {
    forall i: nat, j: nat | i < f.h && j < RowLen(f.w) ensures InsideAt(f, i, j, srcLen, more) {
      assert InsideAt(f, i, j, srcLen, pixels);
    }
  }

  method ConvertFrame(table: array<int>, target: Format, width: nat, height: nat, src: array<Byte>, dst: array<int>)
    requires table != dst && TableOf(target == Rgb565Be, table[..])
    requires AllInside(PlanesOf(width, height), src.Length, dst.Length) && src.Length == width * height * 3 / 2
    modifies dst
    ensures width % 2 == 0 && height % 2 == 0 ==> FrameOk(target == Rgb565Be, src[..], dst[..], width, height)
    ensures forall k :: RowStart(width, height) <= k < dst.Length ==> dst[k] == old(dst[k])
  {
    Yuv420ToRgb565(table, width, height, src, dst);
    if width % 2 == 0 && height % 2 == 0 {
      FrameIsWanted(target == Rgb565Be, src[..], table[..], dst[..], PlanesOf(width, height));
    }
  }

  /** convert_color with the table of its target.  What passes its tests must have a safe size
      (see InsideExactly).  `dst` holds 16-bit units, so dstSize counts two bytes for each. */
  method ConvertColor(table: array<int>, target: Format, width: nat, height: nat,
                      src: array<Byte>, dst: array<int>, dstSize: nat) returns (ret: int)
    requires table != dst && dstSize / 2 <= dst.Length && TableOf(target == Rgb565Be, table[..])
    requires Passes(target, width, height, src.Length, dstSize) ==> SafeSize(width, height)
    modifies dst
    ensures ret == if (target == Rgb565 || target == Rgb565Be) && src.Length == width * height * 3 / 2
                      && dstSize >= width * height * 2 then 0 else -1
    ensures ret != 0 ==> dst[..] == old(dst[..])
    ensures ret == 0 && width % 2 == 0 && height % 2 == 0 ==>
              FrameOk(target == Rgb565Be, src[..], dst[..], width, height)
    ensures ret == 0 && width % 2 == 0 && height % 2 == 0 ==>
              FrameShows(target == Rgb565Be, src[..], dst[..], width, height)
    ensures forall k :: RowStart(width, height) <= k < dst.Length ==> dst[k] == old(dst[k])
  {
    var srcNeed := width * height * 3 / 2;
    var dstNeed := width * height * 2;
    if src.Length != srcNeed || dstSize < dstNeed {
      return -1;
    }
    if target != Rgb565 && target != Rgb565Be {
      return -1;
    }
    InsideExactly(width, height, src.Length, dstSize);
    AllInsideMore(PlanesOf(width, height), src.Length, dstSize / 2, dst.Length);
    ConvertFrame(table, target, width, height, src, dst);
    if width % 2 == 0 && height % 2 == 0 {
      FrameIsShown(target == Rgb565Be, src[..], dst[..], width, height);
    }
    ret := 0;
  }
}
