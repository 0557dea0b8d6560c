/** The board configuration grammar of cfg_parse.c: what print_cfg_line writes, and what
    parse_section and parse_cfg read back, as functions of the text. */
module CfgText {
  import opened Wrappers

  const BOARD_SECTION := "Board:"

  /** A section type with its attribute and value words, in order.  The source keeps
      pointers into the text; a pointer stands for the word that begins there. */
  datatype Line = Line(kind: string, attrs: seq<(string, string)>)

  // ----- characters and words -----

  predicate IsWord(c: char) {
    'A' <= c <= 'Z' || 'a' <= c <= 'z' || '0' <= c <= '9' || c == '_' || c == '-' || c == '.'
  }

  /** The text ends with a NUL. */
  function At(s: string, i: nat): char {
    if i < |s| then s[i] else '\0'
  }

  /** str_len. */
  function WordLen(s: string, i: nat): (n: nat)
    requires i <= |s|
    ensures i + n <= |s| && !IsWord(At(s, i + n))
    ensures forall k :: i <= k < i + n ==> IsWord(s[k])
    decreases |s| - i
  {
    if i < |s| && IsWord(s[i]) then 1 + WordLen(s, i + 1) else 0
  }

  function WordAt(s: string, i: nat): string
    requires i <= |s|
  {
    s[i..i + WordLen(s, i)]
  }

  predicate Word(w: string) {
    w != [] && forall k :: 0 <= k < |w| ==> IsWord(w[k])
  }

  /** w stands at position i. */
  predicate Match(s: string, i: nat, w: string) {
    i + |w| <= |s| && s[i..i + |w|] == w
  }

  /** str_same: w stands at i and is not continued by a word character. */
  predicate SameAt(s: string, i: nat, w: string) {
    Match(s, i, w) && !IsWord(At(s, i + |w|))
  }

  // ----- printing -----

  function PrintPair(pair: (string, string)): string {
    pair.0 + (": " + pair.1)
  }

  function PrintAttrs(attrs: seq<(string, string)>): string {
    if attrs == [] then ""
    else if |attrs| == 1 then PrintPair(attrs[0])
    else PrintPair(attrs[0]) + (", " + PrintAttrs(attrs[1..]))
  }

  function PrintLine(l: Line): string {
    l.kind + ": {" + PrintAttrs(l.attrs) + "}\n"
  }

  function Print(lines: seq<Line>): string {
    if lines == [] then "" else PrintLine(lines[0]) + Print(lines[1..])
  }

  // ----- parsing -----

  /** The first word character from i on that is not inside a comment, or `end`. */
  function SkipToWord(s: string, i: nat, end: nat, comment: bool): (p: nat)
    requires i <= end <= |s|
    ensures i <= p <= end && (p < end ==> IsWord(s[p]))
    decreases end - i
  {
    if i == end then end
    else if comment || s[i] == '#' then SkipToWord(s, i + 1, end, s[i] != '\n')
    else if IsWord(s[i]) then i
    else SkipToWord(s, i + 1, end, false)
  }

  /** The first '{' from i on, or the end of the text. */
  function BraceAt(s: string, i: nat): (p: nat)
    requires i <= |s|
    ensures i <= p <= |s| && (p < |s| ==> s[p] == '{')
    decreases |s| - i
  {
    if i == |s| || s[i] == '{' then i else BraceAt(s, i + 1)
  }

  /** The loop over a section's body: the pairs read from p on, given that the scan is
      inside a word or not and has an attribute waiting for its value or not, and the
      position of the closing brace if there is one before `end`. */
  function Scan(s: string, p: nat, end: nat, inWord: bool, attr: Option<string>): (seq<(string, string)>, Option<nat>)
    requires end <= |s|
    ensures var (pairs, close) := Scan(s, p, end, inWord, attr); close.Some? ==> p <= close.value < end
    decreases end - p
  {
    if p >= end then ([], None)
    else if s[p] == '}' then ([], Some(p))
    else if !IsWord(s[p]) then Scan(s, p + 1, end, false, attr)
    else if inWord then Scan(s, p + 1, end, true, attr)
    else if attr.None? then Scan(s, p + 1, end, true, Some(WordAt(s, p)))
    else
      var (pairs, close) := Scan(s, p + 1, end, true, None);
      ([(attr.value, WordAt(s, p))] + pairs, close)
  }

  /** One call of parse_section.  `Overrun`: there is no '{' in the rest of the text and
      the source reads past its end.  `close` is the closing brace, if any. */
  datatype Section = End | Overrun | Found(line: Line, close: Option<nat>)

  function ParseSection(s: string, start: nat, end: nat): (r: Section)
    requires start <= end <= |s|
    ensures r.Found? && r.close.Some? ==> start <= r.close.value < end
  {
    var name := SkipToWord(s, start, end, false);
    if name == end || SameAt(s, name, BOARD_SECTION) then End
    else
      var brace := BraceAt(s, name);
      if brace == |s| then Overrun
      else
        var (pairs, close) := Scan(s, brace + 1, end, false, None);
        Found(Line(WordAt(s, name), pairs), close)
  }

  /** parse_cfg as long as every section is closed.  `Unclosed`: a section without closing
      brace was met; the source then goes on with the length of the section before it. */
  datatype Outcome = Done(lines: seq<Line>) | Unclosed | Overran

  function Parse(s: string, start: nat, end: nat): Outcome
    requires start <= end <= |s|
    decreases end - start, 1
  {
    ParseRest(s, start, end, ParseSection(s, start, end))
  }

  /** What a section and the text behind it amount to. */
  function ParseRest(s: string, start: nat, end: nat, r: Section): Outcome
    requires start <= end <= |s| && (r.Found? && r.close.Some? ==> start <= r.close.value < end)
    decreases end - start, 0
  {
    match r
    case End => Done([])
    case Overrun => Overran
    case Found(line, close) =>
      if close.None? then Unclosed else Prepend([line], Parse(s, close.value + 1, end))
  }

  function Prepend(lines: seq<Line>, o: Outcome): Outcome {
    match o
    case Done(more) => Done(lines + more)
    case other => other
  }

  // ----- round trip -----

  lemma MatchSplit(s: string, i: nat, a: string, b: string)
    requires Match(s, i, a + b)
    ensures Match(s, i, a) && Match(s, i + |a|, b)
  {
    var m := s[i..i + |a + b|];
    assert s[i..i + |a|] == m[..|a|] == a;
    assert s[i + |a|..i + |a| + |b|] == m[|a|..] == b;
  }

  lemma MatchAt(s: string, i: nat, w: string, k: nat)
    requires Match(s, i, w) && k < |w|
    ensures i + k < |s| && s[i + k] == w[k]
  {
    assert s[i..i + |w|][k] == w[k];
  }

  /** A word followed by something else is read as that word. */
  lemma {:induction false} ReadsWord(s: string, i: nat, w: string)
    requires Match(s, i, w) && (forall k :: 0 <= k < |w| ==> IsWord(w[k])) && !IsWord(At(s, i + |w|))
    ensures WordLen(s, i) == |w| && WordAt(s, i) == w
    decreases |w|
  {
    if w != [] {
      MatchAt(s, i, w, 0);
      assert w == [w[0]] + w[1..];
      MatchSplit(s, i, [w[0]], w[1..]);
      ReadsWord(s, i + 1, w[1..]);
    }
  }

  lemma {:induction false} ScanThroughWord(s: string, p: nat, q: nat, end: nat, attr: Option<string>)
    requires p <= q <= end <= |s| && forall k :: p <= k < q ==> IsWord(s[k])
    ensures Scan(s, p, end, true, attr) == Scan(s, q, end, true, attr)
    decreases q - p
  {
    if p < q {
      ScanThroughWord(s, p + 1, q, end, attr);
    }
  }

  /** Scanning over a word that begins here, with a separator behind it. */
  lemma ScanWord(s: string, p: nat, w: string, end: nat, attr: Option<string>)
    requires Match(s, p, w) && Word(w) && p + |w| < end <= |s| && !IsWord(s[p + |w|])
    ensures var after := Scan(s, p + |w|, end, true, if attr.None? then Some(w) else None);
            Scan(s, p, end, false, attr) == if attr.None? then after else ([(attr.value, w)] + after.0, after.1)
  {
    MatchAt(s, p, w, 0);
    ReadsWord(s, p, w);
    ScanThroughWord(s, p + 1, p + |w|, end, if attr.None? then Some(w) else None);
  }

  predicate PairsOk(attrs: seq<(string, string)>) {
    forall k :: 0 <= k < |attrs| ==> Word(attrs[k].0) && Word(attrs[k].1)
  }

  predicate IsBoard(l: Line) {
    l.kind == "Board"
  }

  predicate LineOk(l: Line) {
    Word(l.kind) && PairsOk(l.attrs)
  }

  /** Scanning over one printed pair. */
  lemma ScanPair(s: string, p: nat, a: string, v: string, end: nat)
    requires Match(s, p, a) && Match(s, p + |a|, ": ") && Match(s, p + |a| + 2, v)
    requires Word(a) && Word(v) && p + |a| + 2 + |v| < end <= |s| && !IsWord(s[p + |a| + 2 + |v|])
    ensures var after := Scan(s, p + |a| + 2 + |v|, end, true, None);
            Scan(s, p, end, false, None) == ([(a, v)] + after.0, after.1)
  {
    MatchAt(s, p + |a|, ": ", 0);
    MatchAt(s, p + |a|, ": ", 1);
    ScanWord(s, p, a, end, None);
    ScanWord(s, p + |a| + 2, v, end, Some(a));
  }

  /** Where the words of a printed pair stand. */
  lemma PairParts(s: string, p: nat, a: string, v: string)
    requires Match(s, p, PrintPair((a, v)))
    ensures Match(s, p, a) && Match(s, p + |a|, ": ") && Match(s, p + |a| + 2, v)
    ensures |PrintPair((a, v))| == |a| + 2 + |v|
  {
    MatchSplit(s, p, a, ": " + v);
    MatchSplit(s, p + |a|, ": ", v);
  }

  /** The first printed pair, in front of whatever the rest of the scan yields. */
  lemma ScanFirst(s: string, p: nat, pair: (string, string), q: nat, end: nat, rest: seq<(string, string)>, close: nat)
    requires Match(s, p, PrintPair(pair)) && Word(pair.0) && Word(pair.1) && q == p + |PrintPair(pair)| < end <= |s|
    requires !IsWord(s[q]) && Scan(s, q, end, true, None) == (rest, Some(close))
    ensures Scan(s, p, end, false, None) == ([pair] + rest, Some(close))
  {
    PairParts(s, p, pair.0, pair.1);
    ScanPair(s, p, pair.0, pair.1, end);
  }

  /** The printed pairs, with the closing brace behind them, are read back. */
  lemma {:induction false} ScanPrinted(s: string, p: nat, attrs: seq<(string, string)>, end: nat, close: nat)
    requires PairsOk(attrs) && Match(s, p, PrintAttrs(attrs)) && close == p + |PrintAttrs(attrs)|
    requires close < end <= |s| && s[close] == '}'
    ensures Scan(s, p, end, false, None) == (attrs, Some(close))
    decreases |attrs|, 0
  {
    if |attrs| == 1 {
      ScanFirst(s, p, attrs[0], close, end, [], close);
      assert attrs == [attrs[0]] + [];
    } else if |attrs| > 1 {
      var q := p + |PrintPair(attrs[0])|;
      MatchSplit(s, p, PrintPair(attrs[0]), ", " + PrintAttrs(attrs[1..]));
      ScanMore(s, q, attrs[1..], end, close);
      ScanFirst(s, p, attrs[0], q, end, attrs[1..], close);
      assert attrs == [attrs[0]] + attrs[1..];
    }
  }

  /** The separator and the remaining pairs. */
  lemma {:induction false} ScanMore(s: string, p: nat, attrs: seq<(string, string)>, end: nat, close: nat)
    requires PairsOk(attrs) && Match(s, p, ", " + PrintAttrs(attrs)) && close == p + 2 + |PrintAttrs(attrs)|
    requires close < end <= |s| && s[close] == '}'
    ensures !IsWord(s[p]) && Scan(s, p, end, true, None) == (attrs, Some(close))
    decreases |attrs|, 1
  {
    MatchSplit(s, p, ", ", PrintAttrs(attrs));
    MatchAt(s, p, ", ", 0);
    MatchAt(s, p, ", ", 1);
    ScanPrinted(s, p + 2, attrs, end, close);
  }

  lemma {:induction false} BraceFound(s: string, i: nat, j: nat)
    requires i <= j < |s| && s[j] == '{' && forall k :: i <= k < j ==> s[k] != '{'
    ensures BraceAt(s, i) == j
    decreases j - i
  {
    if i < j {
      BraceFound(s, i + 1, j);
    }
  }

  lemma MatchSplit4(s: string, p: nat, a: string, b: string, c: string, d: string, e: string)
    requires Match(s, p, a + (b + (c + (d + e))))
    ensures Match(s, p, a) && Match(s, p + |a|, b) && Match(s, p + |a| + |b|, c)
    ensures Match(s, p + |a| + |b| + |c|, d) && Match(s, p + |a| + |b| + |c| + |d|, e)
  {
    MatchSplit(s, p, a, b + (c + (d + e)));
    MatchSplit(s, p + |a|, b, c + (d + e));
    MatchSplit(s, p + |a| + |b|, c, d + e);
    MatchSplit(s, p + |a| + |b| + |c|, d, e);
  }

  lemma LineText(l: Line)
    ensures PrintLine(l) == l.kind + (": {" + (PrintAttrs(l.attrs) + ("}" + "\n")))
  {
    var a := PrintAttrs(l.attrs);
    assert (a + "}") + "\n" == a + ("}" + "\n");
    assert (": {" + a) + "}" + "\n" == ": {" + (a + ("}" + "\n"));
  }

  /** Where the parts of a printed line stand. */
  lemma LineParts(s: string, p: nat, l: Line)
    requires Match(s, p, PrintLine(l))
    ensures var body := p + |l.kind| + 3; var close := body + |PrintAttrs(l.attrs)|;
            && Match(s, p, l.kind) && Match(s, p + |l.kind|, ": {")
            && Match(s, body, PrintAttrs(l.attrs)) && Match(s, close, "}") && Match(s, close + 1, "\n")
            && p + |PrintLine(l)| == close + 2
  {
    LineText(l);
    MatchSplit4(s, p, l.kind, ": {", PrintAttrs(l.attrs), "}", "\n");
  }

  /** The text "Board:" can only come from a type of five letters. */
  lemma BoardLength(s: string, p: nat, kind: string)
    requires Match(s, p, kind) && Word(kind) && Match(s, p, BOARD_SECTION)
    requires p + |kind| < |s| && s[p + |kind|] == ':'
    ensures |kind| == 5
  {
    MatchAt(s, p, BOARD_SECTION, 0);
    MatchAt(s, p, BOARD_SECTION, 1);
    MatchAt(s, p, BOARD_SECTION, 2);
    MatchAt(s, p, BOARD_SECTION, 3);
    MatchAt(s, p, BOARD_SECTION, 4);
    MatchAt(s, p, BOARD_SECTION, 5);
    if |kind| > 5 {
      MatchAt(s, p, kind, 5);
    }
  }

  /** A printed type is taken for the start of a board section exactly when it is "Board". */
  lemma BoardTest(s: string, p: nat, kind: string)
    requires Match(s, p, kind) && Word(kind) && Match(s, p + |kind|, ": {")
    ensures SameAt(s, p, BOARD_SECTION) <==> kind == "Board"
  {
    MatchAt(s, p + |kind|, ": {", 0);
    MatchAt(s, p + |kind|, ": {", 1);
    if Match(s, p, BOARD_SECTION) {
      BoardLength(s, p, kind);
      assert s[p..p + 5] == s[p..p + 6][..5] == "Board";
    }
    if kind == "Board" {
      assert s[p..p + 6] == s[p..p + 5] + [s[p + 5]] == BOARD_SECTION;
    }
  }

  lemma BraceBehindKind(s: string, p: nat, kind: string)
    requires Match(s, p, kind) && Word(kind) && Match(s, p + |kind|, ": {")
    ensures BraceAt(s, p) == p + |kind| + 2 < |s| && WordAt(s, p) == kind
    ensures SkipToWord(s, p, |s|, false) == p < |s|
  {
    MatchAt(s, p, kind, 0);
    MatchAt(s, p + |kind|, ": {", 0);
    MatchAt(s, p + |kind|, ": {", 1);
    MatchAt(s, p + |kind|, ": {", 2);
    forall k | p <= k < p + |kind| + 2 ensures s[k] != '{' {
      if k < p + |kind| {
        MatchAt(s, p, kind, k - p);
      }
    }
    BraceFound(s, p, p + |kind| + 2);
    ReadsWord(s, p, kind);
  }

  lemma SectionFrom(s: string, p: nat, brace: nat, l: Line, close: nat, board: bool)
    requires p < |s| && SkipToWord(s, p, |s|, false) == p && WordAt(s, p) == l.kind
    requires BraceAt(s, p) == brace < |s| && Scan(s, brace + 1, |s|, false, None) == (l.attrs, Some(close))
    requires board == SameAt(s, p, BOARD_SECTION)
    ensures ParseSection(s, p, |s|) == if board then End else Found(l, Some(close))
  {
  }

  /** A printed line, other than a board line, is one section: its type, its pairs, its brace. */
  lemma ParsePrintedLine(s: string, p: nat, l: Line)
    requires LineOk(l) && Match(s, p, PrintLine(l))
    ensures ParseSection(s, p, |s|) == if IsBoard(l) then End else Found(l, Some(p + |PrintLine(l)| - 2))
  {
    LineParts(s, p, l);
    ParseParts(s, p, l, p + |l.kind| + 2, p + |PrintLine(l)| - 2);
  }

  lemma ParseParts(s: string, p: nat, l: Line, brace: nat, close: nat)
    requires LineOk(l) && Match(s, p, l.kind) && Match(s, p + |l.kind|, ": {")
    requires brace == p + |l.kind| + 2 && Match(s, brace + 1, PrintAttrs(l.attrs))
    requires close == brace + 1 + |PrintAttrs(l.attrs)| && Match(s, close, "}") && close < |s|
    ensures ParseSection(s, p, |s|) == if IsBoard(l) then End else Found(l, Some(close))
  {
    assert Scan(s, brace + 1, |s|, false, None) == (l.attrs, Some(close)) by {
      MatchAt(s, close, "}", 0);
      ScanPrinted(s, brace + 1, l.attrs, |s|, close);
    }
    assert IsBoard(l) == SameAt(s, p, BOARD_SECTION) by {
      BoardTest(s, p, l.kind);
    }
    BraceBehindKind(s, p, l.kind);
    SectionFrom(s, p, brace, l, close, IsBoard(l));
  }

  function UpToBoard(lines: seq<Line>): seq<Line> {
    if lines == [] || IsBoard(lines[0]) then [] else [lines[0]] + UpToBoard(lines[1..])
  }

  lemma SkipNewlineSection(s: string, p: nat)
    requires p < |s| && s[p] == '\n'
    ensures ParseSection(s, p, |s|) == ParseSection(s, p + 1, |s|)
  {
    assert SkipToWord(s, p, |s|, false) == SkipToWord(s, p + 1, |s|, false);
  }

  /** A newline in front of a section changes nothing. */
  lemma SkipNewline(s: string, p: nat)
    requires p < |s| && s[p] == '\n'
    ensures Parse(s, p, |s|) == Parse(s, p + 1, |s|)
  {
    SkipNewlineSection(s, p);
  }

  /** A printed line in front of a text, other than a board line, is one section of it. */
  lemma ParseFirst(s: string, p: nat, l: Line, q: nat)
    requires LineOk(l) && !IsBoard(l) && Match(s, p, PrintLine(l)) && q == p + |PrintLine(l)|
    ensures p <= q <= |s| && Parse(s, p, |s|) == Prepend([l], Parse(s, q, |s|))
  {
    LineParts(s, p, l);
    MatchAt(s, q - 1, "\n", 0);
    ParsePrintedLine(s, p, l);
    SkipNewline(s, q - 1);
  }

  lemma ParseBoard(s: string, p: nat, l: Line)
    requires LineOk(l) && IsBoard(l) && Match(s, p, PrintLine(l)) && p <= |s|
    ensures Parse(s, p, |s|) == Done([])
  {
    ParsePrintedLine(s, p, l);
  }

  lemma {:induction false} ParsePrinted(s: string, p: nat, lines: seq<Line>)
    requires (forall l :: l in lines ==> LineOk(l)) && Match(s, p, Print(lines)) && p + |Print(lines)| == |s|
    ensures Parse(s, p, |s|) == Done(UpToBoard(lines))
    decreases |lines|
  {
    if lines == [] {
      assert ParseSection(s, p, |s|) == End;
    } else {
      var l := lines[0];
      MatchSplit(s, p, PrintLine(l), Print(lines[1..]));
      if IsBoard(l) {
        ParseBoard(s, p, l);
      } else {
        ParseFirst(s, p, l, p + |PrintLine(l)|);
        ParsePrinted(s, p + |PrintLine(l)|, lines[1..]);
      }
    }
  }

  /** Printing and parsing, for all lists of lines made of words: parsing returns the lines
      up to the first one of type "Board"; so it returns them all, types and pairs in order,
      if and only if there is no such line. */
  lemma PrintThenParse(lines: seq<Line>)
    requires forall l :: l in lines ==> LineOk(l)
    ensures var text := Print(lines); Parse(text, 0, |text|) == Done(UpToBoard(lines))
    ensures UpToBoard(lines) == lines <==> forall l :: l in lines ==> !IsBoard(l)
  {
    ParsePrinted(Print(lines), 0, lines);
    UpToBoardExactly(lines);
  }

  lemma {:induction false} UpToBoardExactly(lines: seq<Line>)
    ensures UpToBoard(lines) == lines <==> forall l :: l in lines ==> !IsBoard(l)
    ensures |UpToBoard(lines)| <= |lines|
  {
    if lines != [] {
      UpToBoardExactly(lines[1..]);
      assert lines == [lines[0]] + lines[1..];
      if UpToBoard(lines) == lines {
        assert UpToBoard(lines)[1..] == lines[1..];
      }
    }
  }
}
