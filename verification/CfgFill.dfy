/** What parse_cfg does with the sections it finds: fill_cfg's verdict on each, the turns of
    its loop, closing brace or not, and when that loop ends. */
module CfgFill {
  import opened CfgText
  import opened Wrappers

  // ----- fill_cfg -----

  const MAX_I2C := 2
  const MAX_CODEC := 2

  /** How many sections of each kind have been taken in. */
  datatype Counts = Counts(i2c: nat, i2s: nat, codec: nat, sdcard: nat, lcd: nat, camera: nat)

  const NO_SECTIONS := Counts(0, 0, 0, 0, 0, 0)

  predicate IsCodecKind(kind: string) {
    kind == "in_out" || kind == "out" || kind == "in"
  }

  /** The section types that fill_cfg knows. */
  predicate Known(kind: string) {
    || kind == "i2c" || kind == "i2s" || kind == "sdcard" || kind == "lcd" || kind == "camera"
    || IsCodecKind(kind)
  }

  predicate IsDigit(c: char) {
    '0' <= c <= '9'
  }

  function DigitOf(c: char): (d: nat)
    requires IsDigit(c)
    ensures d < 10 && "0123456789"[d] == c
  {
    c as int - '0' as int
  }

  function Digits(w: string, i: nat, n: nat): nat
    requires i <= |w|
    decreases |w| - i
  {
    if i < |w| && IsDigit(w[i]) then Digits(w, i + 1, 10 * n + DigitOf(w[i])) else n
  }

  /** atoi of a word, and its conversion to an 8-bit signed integer. */
  function Atoi(w: string): int {
    var negative := w != [] && w[0] == '-';
    var n: int := Digits(w, if negative then 1 else 0, 0);
    if negative then -n else n
  }

  function AsInt8(n: int): (r: int)
    ensures -128 <= r < 128 && (-128 <= n < 128 ==> r == n)
  {
    (n + 128) % 256 - 128
  }

  predicate AllDigits(w: string) {
    forall k :: 0 <= k < |w| ==> IsDigit(w[k])
  }

  /** The decimal value of a word of digits: ten times that of all but the last, and the last. */
  function Decimal(w: string): nat
    requires AllDigits(w)
  {
    if w == [] then 0 else 10 * Decimal(w[..|w| - 1]) + DigitOf(w[|w| - 1])
  }

  lemma DecimalNext(w: string, i: nat)
    requires i < |w| && AllDigits(w[..i + 1])
    ensures AllDigits(w[..i]) && IsDigit(w[i]) && Decimal(w[..i + 1]) == 10 * Decimal(w[..i]) + DigitOf(w[i])
  {
    var v := w[..i + 1];
    assert v[i] == w[i] && v[..i] == w[..i];
  }

  lemma {:induction false} DigitsAre(w: string, i: nat, k: nat)
    requires i <= k <= |w| && AllDigits(w[..k]) && (k == |w| || !IsDigit(w[k]))
    ensures AllDigits(w[..i]) && Digits(w, i, Decimal(w[..i])) == Decimal(w[..k])
    decreases k - i
  {
    if i < k {
      DigitsAre(w, i + 1, k);
      DecimalNext(w, i);
    }
  }

  lemma {:induction false} DigitsShift(w: string, v: string, i: nat, n: nat)
    requires |v| == 1 + |w| && i <= |w| && forall k :: 1 <= k < |v| ==> v[k] == w[k - 1]
    ensures Digits(v, i + 1, n) == Digits(w, i, n)
    decreases |w| - i
  {
    if i < |w| && IsDigit(w[i]) {
      DigitsShift(w, v, i + 1, 10 * n + DigitOf(w[i]));
    }
  }

  /** atoi yields the decimal value of the digits at the front, up to the first other character;
      a minus sign in front of them makes it negative. */
  lemma AtoiIsDecimal(digits: string, rest: string)
    requires AllDigits(digits) && (rest == [] || !IsDigit(rest[0]))
    ensures digits != [] || rest == [] || rest[0] != '-' ==> Atoi(digits + rest) == Decimal(digits)
    ensures Atoi("-" + (digits + rest)) + Decimal(digits) == 0
  {
    var w := digits + rest;
    assert w[..|digits|] == digits && w[..0] == [];
    DigitsAre(w, 0, |digits|);
    DigitsShift(w, "-" + w, 0, 0);
    assert digits != [] ==> w[0] == digits[0];
  }

  predicate IsCodec(w: string) {
    w == "ES8311" || w == "ES8388" || w == "ES7243" || w == "ES7210" || w == "DUMMY"
  }

  /** One attribute of a codec: its ports must exist already, its type must be known. */
  predicate AttrOk(c: Counts, attr: (string, string)) {
    if attr.0 == "i2c_port" then AsInt8(Atoi(attr.1)) < c.i2c
    else if attr.0 == "i2s_port" then AsInt8(Atoi(attr.1)) < c.i2s
    else attr.0 == "codec" ==> IsCodec(attr.1)
  }

  /** fill_cfg: the counts afterwards, or None where it answers -1. */
  function Fill(c: Counts, l: Line): Option<Counts> {
    if l.kind == "i2c" then if c.i2c >= MAX_I2C then None else Some(c.(i2c := c.i2c + 1))
    else if l.kind == "i2s" then if c.i2s >= MAX_I2C then None else Some(c.(i2s := c.i2s + 1))
    else if l.kind == "sdcard" then if c.sdcard >= 1 then None else Some(c.(sdcard := c.sdcard + 1))
    else if IsCodecKind(l.kind) then
      if c.codec >= MAX_CODEC || exists i :: 0 <= i < |l.attrs| && !AttrOk(c, l.attrs[i]) then None
      else Some(c.(codec := c.codec + 1))
    else if l.kind == "lcd" then if c.lcd >= 1 then None else Some(c.(lcd := c.lcd + 1))
    else if l.kind == "camera" then if c.camera >= 1 then None else Some(c.(camera := c.camera + 1))
    else Some(c)
  }

  function FillAll(c: Counts, lines: seq<Line>): Option<Counts>
    decreases lines
  {
    if lines == [] then Some(c)
    else
      match Fill(c, lines[0])
      case None => None
      case Some(d) => FillAll(d, lines[1..])
  }

  /** Sections of this kind that can still be taken in. */
  function Room(c: Counts, kind: string): int {
    if kind == "i2c" then MAX_I2C - c.i2c
    else if kind == "i2s" then MAX_I2C - c.i2s
    else if IsCodecKind(kind) then MAX_CODEC - c.codec
    else if kind == "sdcard" then 1 - c.sdcard
    else if kind == "lcd" then 1 - c.lcd
    else 1 - c.camera
  }

  /** fill_cfg's verdicts: at most two sections of a bus, two codecs, one of each other kind; and
      a codec may only name ports of buses that have been taken in, and one of five chips. */
  lemma FillExactly(c: Counts, l: Line)
    ensures l.kind == "i2c" ==> Fill(c, l) == if c.i2c < 2 then Some(c.(i2c := c.i2c + 1)) else None
    ensures l.kind == "i2s" ==> Fill(c, l) == if c.i2s < 2 then Some(c.(i2s := c.i2s + 1)) else None
    ensures l.kind == "sdcard" ==> Fill(c, l) == if c.sdcard < 1 then Some(c.(sdcard := c.sdcard + 1)) else None
    ensures l.kind == "lcd" ==> Fill(c, l) == if c.lcd < 1 then Some(c.(lcd := c.lcd + 1)) else None
    ensures l.kind == "camera" ==> Fill(c, l) == if c.camera < 1 then Some(c.(camera := c.camera + 1)) else None
    ensures l.kind in ["in", "out", "in_out"] ==>
              Fill(c, l) ==
              if c.codec < 2 && CodecFits(l.attrs, c.i2c, c.i2s) then Some(c.(codec := c.codec + 1)) else None
    ensures l.kind !in ["i2c", "i2s", "sdcard", "lcd", "camera", "in", "out", "in_out"] ==> Fill(c, l) == Some(c)
    ensures Known(l.kind) <==> l.kind in ["i2c", "i2s", "sdcard", "lcd", "camera", "in", "out", "in_out"]
  {
    assert forall i :: 0 <= i < |l.attrs| ==> (AttrOk(c, l.attrs[i]) <==> AttrFits(l.attrs[i], c.i2c, c.i2s));
  }

  /** An attribute of a codec fits `i2c` and `i2s` buses of each kind, numbered from 0. */
  predicate AttrFits(attr: (string, string), i2c: nat, i2s: nat) {
    && (attr.0 == "i2c_port" ==> AsInt8(Atoi(attr.1)) < i2c)
    && (attr.0 == "i2s_port" ==> AsInt8(Atoi(attr.1)) < i2s)
    && (attr.0 == "codec" ==> attr.1 in ["ES8311", "ES8388", "ES7243", "ES7210", "DUMMY"])
  }

  predicate CodecFits(attrs: seq<(string, string)>, i2c: nat, i2s: nat) {
    forall k :: 0 <= k < |attrs| ==> AttrFits(attrs[k], i2c, i2s)
  }

  /** A known kind uses up its room; an unknown one is always accepted and changes nothing. */
  lemma FillTakesRoom(c: Counts, l: Line)
    ensures Known(l.kind) && Room(c, l.kind) <= 0 ==> Fill(c, l).None?
    ensures Known(l.kind) && Fill(c, l).Some? ==> Room(Fill(c, l).value, l.kind) == Room(c, l.kind) - 1
    ensures !Known(l.kind) ==> Fill(c, l) == Some(c)
  {
  }

  // ----- the loop of parse_cfg -----

  /** What has been taken in so far. */
  datatype Intake = Intake(lines: seq<Line>, counts: Counts)

  /** Where the loop stands at the top of a turn, or how it has ended: with a result, by
      looking for a '{' past the end of the text, or because the remaining length is negative. */
  datatype Turn =
    | Standing(start: nat, consume: nat, intake: Intake)
    | Returned(ok: bool, intake: Intake)
    | Overrunning(intake: Intake)
    | Outside(intake: Intake)

  function Begin(start: nat): Turn {
    Standing(start, 0, Intake([], NO_SECTIONS))
  }

  /** The rest of a turn, once parse_section has answered r.  Without a closing brace the
      length of the section before it is used again. */
  function Finish(t: Turn, r: Section): Turn
    requires t.Standing? && (r.Found? && r.close.Some? ==> t.start <= r.close.value)
  {
    match r
    case End => Returned(true, t.intake)
    case Overrun => Overrunning(t.intake)
    case Found(line, close) =>
      var consume := if close.Some? then close.value + 1 - t.start else t.consume;
      match Fill(t.intake.counts, line)
      case None => Returned(false, t.intake)
      case Some(counts) => Standing(t.start + consume, consume, Intake(t.intake.lines + [line], counts))
  }

  function NextTurn(s: string, end: nat, t: Turn): Turn
    requires end <= |s|
  {
    if !t.Standing? then t
    else if t.start > end then Outside(t.intake)
    else Finish(t, ParseSection(s, t.start, end))
  }

  function Turns(s: string, end: nat, t: Turn, n: nat): Turn
    requires end <= |s|
    decreases n
  {
    if n == 0 then t else Turns(s, end, NextTurn(s, end, t), n - 1)
  }

  lemma {:induction false} EndedStays(s: string, end: nat, t: Turn, n: nat)
    requires end <= |s| && !t.Standing?
    ensures Turns(s, end, t, n) == t
    decreases n
  {
    if n > 0 {
      EndedStays(s, end, t, n - 1);
    }
  }

  // ----- when it ends -----

  predicate UnclosedAt(s: string, start: nat, end: nat)
    requires start <= end <= |s|
  {
    var r := ParseSection(s, start, end);
    r.Found? && r.close.None?
  }

  /** The first section is not closed, and its type is none of those that fill_cfg knows. */
  predicate Endless(s: string, start: nat, end: nat)
    requires start <= end <= |s|
  {
    UnclosedAt(s, start, end) && !Known(ParseSection(s, start, end).line.kind)
  }

  /** The loop stands at `start`, has met no closed section, and has these counts. */
  predicate StandsAt(t: Turn, start: nat, counts: Counts) {
    t.Standing? && t.start == start && t.consume == 0 && t.intake.counts == counts
  }

  lemma EndlessTurn(s: string, start: nat, end: nat, t: Turn)
    requires start <= end <= |s| && Endless(s, start, end) && t.Standing? && StandsAt(t, start, t.intake.counts)
    ensures StandsAt(NextTurn(s, end, t), start, t.intake.counts)
  {
    FillTakesRoom(t.intake.counts, ParseSection(s, start, end).line);
  }

  lemma {:induction false} EndlessStands(s: string, start: nat, end: nat, t: Turn, counts: Counts, n: nat)
    requires start <= end <= |s| && Endless(s, start, end) && StandsAt(t, start, counts)
    ensures StandsAt(Turns(s, end, t, n), start, counts)
    decreases n
  {
    if n > 0 {
      EndlessTurn(s, start, end, t);
      EndlessStands(s, start, end, NextTurn(s, end, t), counts, n - 1);
    }
  }

  /** Once a closed section has been met, every turn moves on, closing brace or not. */
  lemma {:induction false} MovingEnds(s: string, end: nat, t: Turn, n: nat)
    requires end <= |s| && n > 0
    requires t.Standing? ==> t.consume > 0 && (t.start <= end ==> n >= end - t.start + 2)
    ensures !Turns(s, end, t, n).Standing?
    decreases n
  {
    if !t.Standing? {
      EndedStays(s, end, t, n);
    } else {
      var next := NextTurn(s, end, t);
      if next.Standing? {
        MovingEnds(s, end, next, n - 1);
      } else {
        EndedStays(s, end, next, n - 1);
      }
    }
  }

  /** A first section that is not closed but known is taken in until it is refused. */
  lemma {:induction false} KnownIsRefused(s: string, start: nat, end: nat, intake: Intake, n: nat)
    requires start <= end <= |s| && UnclosedAt(s, start, end)
    requires var kind := ParseSection(s, start, end).line.kind; Known(kind) && n > Room(intake.counts, kind)
    requires n > 0
    ensures var t := Turns(s, end, Standing(start, 0, intake), n); t.Returned? && !t.ok
    decreases n
  {
    var t := Standing(start, 0, intake);
    var line := ParseSection(s, start, end).line;
    var next := NextTurn(s, end, t);
    FillTakesRoom(intake.counts, line);
    if next.Standing? {
      KnownIsRefused(s, start, end, next.intake, n - 1);
    } else {
      EndedStays(s, end, next, n - 1);
    }
  }

  /** Turns after which a loop that ends has ended. */
  function Enough(start: nat, end: nat): nat
    requires start <= end
  {
    end - start + 3
  }

  lemma EndsInTime(s: string, start: nat, end: nat)
    requires start <= end <= |s| && !Endless(s, start, end)
    ensures !Turns(s, end, Begin(start), Enough(start, end)).Standing?
  {
    if UnclosedAt(s, start, end) {
      KnownIsRefused(s, start, end, Begin(start).intake, Enough(start, end));
    } else {
      MovingEnds(s, end, NextTurn(s, end, Begin(start)), Enough(start, end) - 1);
    }
  }

  /** parse_cfg loops for ever if and only if the first section has no closing brace and a
      type that fill_cfg does not know.  In particular a later section without closing brace
      does not stop it: the length of the section before it moves it on. */
  lemma NeverEndsExactly(s: string, start: nat, end: nat)
    requires start <= end <= |s|
    ensures (forall n: nat :: Turns(s, end, Begin(start), n).Standing?) <==> Endless(s, start, end)
  {
    if Endless(s, start, end) {
      forall n: nat ensures Turns(s, end, Begin(start), n).Standing? {
        EndlessStands(s, start, end, Begin(start), NO_SECTIONS, n);
      }
    } else {
      EndsInTime(s, start, end);
    }
  }

  /** A first section that is not closed and known ends the loop with an error, after its
      limit and one more turn. */
  lemma UnclosedKnownFails(s: string, start: nat, end: nat)
    requires start <= end <= |s| && UnclosedAt(s, start, end) && Known(ParseSection(s, start, end).line.kind)
    ensures var t := Turns(s, end, Begin(start), 3); t.Returned? && !t.ok
  {
    KnownIsRefused(s, start, end, Begin(start).intake, 3);
  }

  // ----- texts of each kind -----

  /** "x{": the loop never ends. */
  lemma EndlessText()
    ensures Endless("x{", 0, 2)
  {
    var s := "x{";
    assert WordLen(s, 1) == 0 && WordAt(s, 0) == "x";
    assert BraceAt(s, 0) == BraceAt(s, 1) == 1;
  }

  /** "i2c{": the third turn is refused. */
  lemma RefusedText()
    ensures UnclosedAt("i2c{", 0, 4)
    ensures var t := Turns("i2c{", 4, Begin(0), 3); t.Returned? && !t.ok
  {
    var s := "i2c{";
    assert WordLen(s, 3) == 0 && WordLen(s, 2) == 1 && WordLen(s, 1) == 2 && WordAt(s, 0) == "i2c";
    assert BraceAt(s, 0) == BraceAt(s, 1) == BraceAt(s, 2) == BraceAt(s, 3) == 3;
    UnclosedKnownFails(s, 0, 4);
  }

  /** "x{}y{": the stale length of the first section moves the loop past the end of the text. */
  lemma StaleText()
    ensures UnclosedAt("x{}y{", 3, 5)
    ensures Turns("x{}y{", 5, Begin(0), 3).Outside?
  {
    var s := "x{}y{";
    assert WordLen(s, 1) == 0 && WordAt(s, 0) == "x" && BraceAt(s, 0) == BraceAt(s, 1) == 1;
    assert Scan(s, 2, 5, false, None) == ([], Some(2));
    var t1 := NextTurn(s, 5, Begin(0));
    assert t1 == Standing(3, 3, Intake([Line("x", [])], NO_SECTIONS));
    assert WordLen(s, 4) == 0 && WordAt(s, 3) == "y" && BraceAt(s, 3) == BraceAt(s, 4) == 4;
    var t2 := NextTurn(s, 5, t1);
    assert t2.Standing? && t2.start == 6;
    assert Turns(s, 5, Begin(0), 3) == Turns(s, 5, t1, 2) == Turns(s, 5, t2, 1);
  }

  // ----- closed texts -----

  /** What is to be expected of a loop that has these lines in front of it. */
  predicate TakesIn(f: Turn, intake: Intake, lines: seq<Line>) {
    var fill := FillAll(intake.counts, lines);
    && f.Returned? && (f.ok <==> fill.Some?)
    && (f.ok ==> f.intake == Intake(intake.lines + lines, fill.value))
  }

  lemma TakesInFirst(f: Turn, intake: Intake, line: Line, lines: seq<Line>)
    requires var fill := Fill(intake.counts, line);
             if fill.None? then f.Returned? && !f.ok else TakesIn(f, Intake(intake.lines + [line], fill.value), lines)
    ensures TakesIn(f, intake, [line] + lines)
  {
    assert ([line] + lines)[1..] == lines;
    Associative(intake.lines, [line], lines);
  }

  /** One turn on a text of closed sections. */
  lemma ClosedTurn(s: string, end: nat, t: Turn, lines: seq<Line>) returns (next: Turn, rest: seq<Line>)
    requires end <= |s| && t.Standing? && t.start <= end && Parse(s, t.start, end) == Done(lines)
    ensures next == NextTurn(s, end, t)
    ensures lines == [] ==> next == Returned(true, t.intake)
    ensures lines != [] ==>
              var fill := Fill(t.intake.counts, lines[0]);
              && lines == [lines[0]] + rest
              && if fill.None? then next == Returned(false, t.intake)
                 else next.Standing? && t.start < next.start <= end && Parse(s, next.start, end) == Done(rest)
                      && next.intake == Intake(t.intake.lines + [lines[0]], fill.value)
  {
    next := NextTurn(s, end, t);
    var r := ParseSection(s, t.start, end);
    assert Parse(s, t.start, end) == ParseRest(s, t.start, end, r);
    rest := if r.End? then [] else Parse(s, r.close.value + 1, end).lines;
  }

  /** On a text of closed sections the loop returns, with success if and only if fill_cfg
      takes in every section, and then with all of them. */
  lemma {:induction false} ClosedRuns(s: string, end: nat, t: Turn, lines: seq<Line>, n: nat)
    requires end <= |s| && t.Standing? && t.start <= end && Parse(s, t.start, end) == Done(lines) && n > end - t.start
    ensures TakesIn(Turns(s, end, t, n), t.intake, lines)
    decreases n
  {
    var next, rest := ClosedTurn(s, end, t, lines);
    if next.Standing? {
      ClosedRuns(s, end, next, rest, n - 1);
    } else {
      EndedStays(s, end, next, n - 1);
    }
    if lines == [] {
      assert t.intake.lines + [] == t.intake.lines;
    } else {
      TakesInFirst(Turns(s, end, next, n - 1), t.intake, lines[0], rest);
    }
  }

  /** Printed configurations, for all lists of lines made of words: the loop returns, with
      success if and only if fill_cfg accepts the lines up to the first "Board" one, and
      then it has taken in exactly those. */
  lemma PrintedRuns(lines: seq<Line>, n: nat)
    requires (forall l :: l in lines ==> LineOk(l)) && n > |Print(lines)|
    ensures var text := Print(lines);
            TakesIn(Turns(text, |text|, Begin(0), n), Intake([], NO_SECTIONS), UpToBoard(lines))
  {
    var text := Print(lines);
    PrintThenParse(lines);
    ClosedRuns(text, |text|, Begin(0), UpToBoard(lines), n);
  }
}
