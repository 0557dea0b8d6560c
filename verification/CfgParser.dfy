/** The pointer loops of cfg_parse.c, proved against the functions of CfgText and CfgFill. */
module CfgParser {
  import opened CfgFill
  import opened CfgReading
  import opened CfgText
  import opened Wrappers

  /** str_same walks both strings at once; it answers whether w stands here as a whole word. */
  method StrSame(s: string, i: nat, w: string) returns (same: bool)
    requires i <= |s| && forall k :: 0 <= k < |w| ==> w[k] != '\0'
    ensures same == SameAt(s, i, w)
  {
    var k := 0;
    while k < |w| && At(s, i + k) == w[k]
      invariant k <= |w| && i + k <= |s| && s[i..i + k] == w[..k]
    {
      assert s[i..i + (k + 1)] == s[i..i + k] + [s[i + k]] && w[..k + 1] == w[..k] + [w[k]];
      k := k + 1;
    }
    if k == |w| {
      assert w[..k] == w;
      same := !IsWord(At(s, i + k));
    } else {
      if Match(s, i, w) {
        MatchAt(s, i, w, k);
      }
      same := false;
    }
  }

  /** The rest of a list, printed from its first pair on. */
  lemma PrintRest(attrs: seq<(string, string)>, k: nat)
    requires k < |attrs|
    ensures PrintAttrs(attrs[k..]) ==
            if k + 1 < |attrs| then PrintPair(attrs[k]) + (", " + PrintAttrs(attrs[k + 1..])) else PrintPair(attrs[k])
  {
    assert attrs[k..][0] == attrs[k] && attrs[k..][1..] == attrs[k + 1..];
  }

  /** print_cfg_line: a separator behind every pair but the last. */
  method PrintCfgLine(l: Line) returns (out: string)
    ensures out == PrintLine(l)
  {
    ghost var head, body := l.kind + ": {", PrintAttrs(l.attrs);
    out := l.kind + ": {";
    assert l.attrs[0..] == l.attrs;
    var k := 0;
    while k < |l.attrs|
      invariant k <= |l.attrs| && out + PrintAttrs(l.attrs[k..]) == head + body
    {
      PrintRest(l.attrs, k);
      var (a, v) := l.attrs[k];
      ghost var rest := PrintAttrs(l.attrs[k + 1..]);
      if k + 1 < |l.attrs| {
        Associative(out, PrintPair((a, v)), ", " + rest);
        Associative(out + PrintPair((a, v)), ", ", rest);
        out := out + (a + (": " + v)) + ", ";
      } else {
        assert rest == "";
        out := out + (a + (": " + v));
      }
      k := k + 1;
    }
    out := out + "}\n";
  }

  /** The search for the next section type. */
  method FindName(s: string, start: nat, end: nat) returns (name: nat)
    requires start <= end <= |s|
    ensures name == SkipToWord(s, start, end, false)
    ensures start <= name <= end && (name < end ==> IsWord(s[name]) && !InComment(s, start, name))
    ensures forall q :: start <= q < name ==> !IsWord(s[q]) || InComment(s, start, q)
  {
    FirstWord(s, start, end);
    name := start;
    var comment := false;
    while name < end
      invariant start <= name <= end
      invariant SkipToWord(s, name, end, comment) == SkipToWord(s, start, end, false)
    {
      if s[name] == '#' {
        comment := true;
      }
      if comment {
        if s[name] == '\n' {
          comment := false;
        }
      } else if IsWord(s[name]) {
        return name;
      }
      name := name + 1;
    }
  }

  /** The loop over the body of a section. */
  method ScanBody(s: string, brace: nat, end: nat) returns (pairs: seq<(string, string)>, close: Option<nat>)
    requires brace < |s| && end <= |s|
    ensures (pairs, close) == Scan(s, brace + 1, end, false, None)
    ensures brace < end ==>
              && ClosesAt(s, brace + 1, end, close) && StopOf(end, close) <= |s|
              && pairs == TwoByTwo(Words(s, brace + 1, StopOf(end, close)))
  {
    if brace < end {
      BodyPairs(s, brace + 1, end);
    }
    pairs, close := [], None;
    var p, inWord, attr := brace + 1, false, None;
    ghost var all := Scan(s, brace + 1, end, false, None);
    assert [] + all.0 == all.0;
    while p < end
      invariant brace + 1 <= p && close == None
      invariant all == (pairs + Scan(s, p, end, inWord, attr).0, Scan(s, p, end, inWord, attr).1)
      decreases end - p
    {
      if s[p] == '}' {
        close := Some(p);
        assert pairs + [] == pairs;
        return;
      }
      if IsWord(s[p]) {
        if !inWord {
          if attr == None {
            attr := Some(WordAt(s, p));
          } else {
            ghost var rest := Scan(s, p + 1, end, true, None).0;
            assert pairs + ([(attr.value, WordAt(s, p))] + rest) == (pairs + [(attr.value, WordAt(s, p))]) + rest;
            pairs := pairs + [(attr.value, WordAt(s, p))];
            attr := None;
          }
        }
        inWord := true;
      } else {
        inWord := false;
      }
      p := p + 1;
    }
    assert pairs + [] == pairs;
  }

  /** parse_section.  `consume` is only updated when the closing brace is found. */
  method ReadSection(s: string, start: nat, end: nat, consume0: nat) returns (r: Section, consume: nat)
    requires start <= end <= |s|
    ensures r == ParseSection(s, start, end)
    ensures consume == Consumed(r, start, consume0)
  {
    consume := consume0;
    var name := FindName(s, start, end);
    if name == end {
      return End, consume;
    }
    var board := StrSame(s, name, BOARD_SECTION);
    if board {
      return End, consume;
    }
    var brace := name;
    while brace < |s| && s[brace] != '{'
      invariant name <= brace <= |s| && BraceAt(s, brace) == BraceAt(s, name)
    {
      brace := brace + 1;
    }
    if brace == |s| {
      return Overrun, consume;
    }
    var pairs, close := ScanBody(s, brace, end);
    if close.Some? {
      consume := close.value + 1 - start;
    }
    r := Found(Line(WordAt(s, name), pairs), close);
  }

  function Consumed(r: Section, start: nat, consume0: nat): nat
    requires r.Found? && r.close.Some? ==> start <= r.close.value
  {
    if r.Found? && r.close.Some? then r.close.value + 1 - start else consume0
  }

  /** fill_codec_cfg's loop over the attributes leaves at the first one that is wrong. */
  method FillCodec(l: Line, c: Counts) returns (r: Option<Counts>)
    requires IsCodecKind(l.kind)
    ensures r == Fill(c, l)
    ensures r.Some? <==> c.codec < 2 && CodecFits(l.attrs, c.i2c, c.i2s)
    ensures r.Some? ==> r.value == c.(codec := c.codec + 1)
  {
    FillExactly(c, l);
    if c.codec >= MAX_CODEC {
      return None;
    }
    var k := 0;
    while k < |l.attrs|
      invariant k <= |l.attrs| && forall i :: 0 <= i < k ==> AttrOk(c, l.attrs[i])
    {
      var (name, value) := l.attrs[k];
      if name == "i2c_port" {
        if AsInt8(Atoi(value)) >= c.i2c {
          assert !AttrOk(c, l.attrs[k]);
          return None;
        }
      } else if name == "i2s_port" {
        if AsInt8(Atoi(value)) >= c.i2s {
          assert !AttrOk(c, l.attrs[k]);
          return None;
        }
      } else if name == "codec" && !IsCodec(value) {
        assert !AttrOk(c, l.attrs[k]);
        return None;
      }
      k := k + 1;
    }
    r := Some(c.(codec := c.codec + 1));
  }

  /** fill_cfg: refuses what exceeds a limit or names a missing port or an unknown codec, and
      lets every other section pass. */
  method FillCfg(l: Line, c: Counts) returns (r: Option<Counts>)
    ensures r == Fill(c, l)
    ensures r.None? ==> Known(l.kind)
    ensures Known(l.kind) && r.Some? ==> Room(r.value, l.kind) == Room(c, l.kind) - 1
    ensures l.kind in ["in", "out", "in_out"] ==> (r.Some? <==> c.codec < 2 && CodecFits(l.attrs, c.i2c, c.i2s))
    ensures l.kind in ["in", "out", "in_out"] && r.Some? ==> r.value == c.(codec := c.codec + 1)
    ensures l.kind in ["i2c", "i2s"] ==> (r.Some? <==> (if l.kind == "i2c" then c.i2c else c.i2s) < 2)
    ensures l.kind in ["sdcard", "lcd", "camera"] ==>
              (r.Some? <==> (if l.kind == "sdcard" then c.sdcard else if l.kind == "lcd" then c.lcd else c.camera) < 1)
  {
    FillTakesRoom(c, l);
    FillExactly(c, l);
    r := Some(c);
    if l.kind == "i2c" {
      r := if c.i2c >= MAX_I2C then None else Some(c.(i2c := c.i2c + 1));
    } else if l.kind == "i2s" {
      r := if c.i2s >= MAX_I2C then None else Some(c.(i2s := c.i2s + 1));
    } else if l.kind == "sdcard" {
      r := if c.sdcard >= 1 then None else Some(c.(sdcard := c.sdcard + 1));
    } else if l.kind == "in_out" || l.kind == "out" || l.kind == "in" {
      r := FillCodec(l, c);
    } else if l.kind == "lcd" {
      r := if c.lcd >= 1 then None else Some(c.(lcd := c.lcd + 1));
    } else if l.kind == "camera" {
      r := if c.camera >= 1 then None else Some(c.(camera := c.camera + 1));
    }
  }

  /** One turn of parse_cfg's loop. */
  method TakeTurn(s: string, end: nat, section: nat, consume0: nat, intake: Intake) returns (t: Turn)
    requires section <= end <= |s|
    ensures t == NextTurn(s, end, Standing(section, consume0, intake))
  {
    var r, consume := ReadSection(s, section, end, consume0);
    match r {
      case End => return Returned(true, intake);
      case Overrun => return Overrunning(intake);
      case Found(line, _) =>
        var fill := FillCfg(line, intake.counts);
        if fill.None? {
          return Returned(false, intake);
        }
        t := Standing(section + consume, consume, Intake(intake.lines + [line], fill.value));
    }
  }

  /** parse_cfg on every text on which it comes to an end, whichever way it does. */
  method ParseCfg(s: string, start: nat, end: nat) returns (o: Turn)
    requires start <= end <= |s| && !Endless(s, start, end)
    ensures !o.Standing? && o == Turns(s, end, Begin(start), Enough(start, end))
  {
    var t := Begin(start);
    ghost var left := Enough(start, end);
    EndsInTime(s, start, end);
    while t.Standing?
      invariant Turns(s, end, t, left) == Turns(s, end, Begin(start), Enough(start, end))
      decreases left
    {
      if t.start > end {
        t := Outside(t.intake);
      } else {
        t := TakeTurn(s, end, t.start, t.consume, t.intake);
      }
      left := left - 1;
    }
    EndedStays(s, end, t, left);
    o := t;
  }
}
