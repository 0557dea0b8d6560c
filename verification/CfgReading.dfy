/** What the scanning functions of `CfgText` read, said without scanning: the characters of
    words, comments, the words of a section's body taken in pairs, and where a body ends. */
module CfgReading {
  import opened CfgText
  import opened Wrappers

  const UPPER := "ABCDEFGHIJKLMNOPQRSTUVWXYZ"
  const LOWER := "abcdefghijklmnopqrstuvwxyz"
  const OTHER := "0123456789_-."

  lemma UpperLetters(c: char)
    ensures 'A' <= c <= 'Z' <==> c in UPPER
  {
    if 'A' <= c <= 'Z' {
      assert UPPER[c as int - 'A' as int] == c;
    }
  }

  lemma LowerLetters(c: char)
    ensures 'a' <= c <= 'z' <==> c in LOWER
  {
    if 'a' <= c <= 'z' {
      assert LOWER[c as int - 'a' as int] == c;
    }
  }

  lemma OtherCharacters(c: char)
    ensures '0' <= c <= '9' || c == '_' || c == '-' || c == '.' <==> c in OTHER
  {
    if '0' <= c <= '9' {
      assert OTHER[c as int - '0' as int] == c;
    }
    assert OTHER[10] == '_' && OTHER[11] == '-' && OTHER[12] == '.';
  }

  /** The characters of words, one by one. */
  lemma WordCharacters(c: char)
    ensures IsWord(c) <==> c in UPPER || c in LOWER || c in OTHER
  {
    UpperLetters(c);
    LowerLetters(c);
    OtherCharacters(c);
  }

  // ----- the section type -----

  /** A comment from i on is open in front of position p: there is a '#' and no end of line
      after it. */
  predicate Open(s: string, i: nat, p: nat)
    requires i <= p <= |s|
  {
    exists k :: i <= k < p && OpensAt(s, k, p)
  }

  predicate OpensAt(s: string, k: nat, p: nat)
    requires k < p <= |s|
  {
    s[k] == '#' && forall q :: k <= q < p ==> s[q] != '\n'
  }

  predicate InComment(s: string, i: nat, p: nat)
    requires i <= p < |s|
  {
    Open(s, i, p) || s[p] == '#'
  }

  lemma OpenNext(s: string, i: nat, p: nat)
    requires i <= p < |s|
    ensures Open(s, i, p + 1) <==> InComment(s, i, p) && s[p] != '\n'
  {
    if InComment(s, i, p) && s[p] != '\n' {
      var k := if s[p] == '#' then p else var j :| i <= j < p && OpensAt(s, j, p); j;
      assert OpensAt(s, k, p + 1);
    }
    if Open(s, i, p + 1) {
      var k :| i <= k < p + 1 && OpensAt(s, k, p + 1);
      assert k < p ==> OpensAt(s, k, p);
    }
  }

  /** The search for a section type ends at the first character of a word that is not in a
      comment. */
  lemma {:induction false} FirstWordFrom(s: string, i: nat, p: nat, end: nat)
    requires i <= p <= end <= |s|
    ensures var n := SkipToWord(s, p, end, Open(s, i, p));
            && (n < end ==> IsWord(s[n]) && !InComment(s, i, n))
            && forall q :: p <= q < n ==> !IsWord(s[q]) || InComment(s, i, q)
    decreases end - p
  {
    if p < end {
      OpenNext(s, i, p);
      FirstWordFrom(s, i, p + 1, end);
    }
  }

  lemma FirstWord(s: string, i: nat, end: nat)
    requires i <= end <= |s|
    ensures var n := SkipToWord(s, i, end, false);
            && (n < end ==> IsWord(s[n]) && !InComment(s, i, n))
            && forall q :: i <= q < n ==> !IsWord(s[q]) || InComment(s, i, q)
  {
    assert !Open(s, i, i);
    FirstWordFrom(s, i, i, end);
  }

  // ----- the body of a section -----

  /** The words that begin from p on in front of q, in order. */
  function Words(s: string, p: nat, q: nat): seq<string>
    requires q <= |s|
    decreases q - p
  {
    if p >= q then []
    else if IsWord(s[p]) then [WordAt(s, p)] + Words(s, p + WordLen(s, p), q)
    else Words(s, p + 1, q)
  }

  /** Taken two by two: an attribute and its value; a last one without a value is dropped. */
  function TwoByTwo(words: seq<string>): seq<(string, string)> {
    if |words| < 2 then [] else [(words[0], words[1])] + TwoByTwo(words[2..])
  }

  /** The first closing brace from p on in front of `end`, if there is one. */
  predicate ClosesAt(s: string, p: nat, end: nat, close: Option<nat>)
    requires end <= |s|
  {
    match close
    case Some(c) => p <= c < end && s[c] == '}' && forall q :: p <= q < c ==> s[q] != '}'
    case None => forall q :: p <= q < end ==> s[q] != '}'
  }

  /** Where the scan stops. */
  function StopOf(end: nat, close: Option<nat>): nat {
    if close.Some? then close.value else end
  }

  lemma {:induction false} ScanCloses(s: string, p: nat, end: nat, inWord: bool, attr: Option<string>)
    requires end <= |s|
    ensures ClosesAt(s, p, end, Scan(s, p, end, inWord, attr).1)
    decreases end - p
  {
    if p < end && s[p] != '}' {
      ScanCloses(s, p + 1, end, false, attr);
      ScanCloses(s, p + 1, end, true, attr);
      if IsWord(s[p]) && !inWord {
        ScanCloses(s, p + 1, end, true, if attr.None? then Some(WordAt(s, p)) else None);
      }
    }
  }

  function Waiting(attr: Option<string>): seq<string> {
    if attr.Some? then [attr.value] else []
  }

  /** Outside a word, the scan yields the pairs of the word that waits and those to come. */
  lemma {:induction false} ScanPairs(s: string, p: nat, end: nat, attr: Option<string>)
    requires p <= end <= |s|
    ensures var (pairs, close) := Scan(s, p, end, false, attr);
            StopOf(end, close) <= |s| && pairs == TwoByTwo(Waiting(attr) + Words(s, p, StopOf(end, close)))
    decreases end - p
  {
    var (pairs, close) := Scan(s, p, end, false, attr);
    var stop := StopOf(end, close);
    ScanCloses(s, p, end, false, attr);
    if p == end || s[p] == '}' {
    } else if !IsWord(s[p]) {
      ScanPairs(s, p + 1, end, attr);
    } else {
      var next := if attr.None? then Some(WordAt(s, p)) else None;
      var q := p + WordLen(s, p);
      var r := if q < end then q else end;
      ScanThroughWord(s, p + 1, r, end, next);
      ScanResumes(s, r, end, next);
      if q < end {
        ScanPairs(s, q, end, next);
      }
      PairUp(attr, WordAt(s, p), Words(s, q, stop));
    }
  }

  lemma ScanResumes(s: string, r: nat, end: nat, attr: Option<string>)
    requires r <= end <= |s| && (r == end || !IsWord(s[r]))
    ensures Scan(s, r, end, true, attr) == Scan(s, r, end, false, attr)
  {
  }

  lemma PairUp(attr: Option<string>, w: string, rest: seq<string>)
    ensures TwoByTwo(Waiting(attr) + ([w] + rest)) ==
            if attr.None? then TwoByTwo(Waiting(Some(w)) + rest) else [(attr.value, w)] + TwoByTwo(Waiting(None) + rest)
  {
    var all := Waiting(attr) + ([w] + rest);
    if attr.None? {
      assert all == Waiting(Some(w)) + rest;
    } else {
      assert all[2..] == rest && Waiting(None) + rest == rest;
    }
  }

  /** The body of a section: it ends at its first closing brace, and its pairs are its words two
      by two. */
  lemma BodyPairs(s: string, p: nat, end: nat)
    requires p <= end <= |s|
    ensures var (pairs, close) := Scan(s, p, end, false, None);
            && ClosesAt(s, p, end, close) && StopOf(end, close) <= |s|
            && pairs == TwoByTwo(Words(s, p, StopOf(end, close)))
  {
    ScanPairs(s, p, end, None);
    ScanCloses(s, p, end, false, None);
    assert forall words: seq<string> :: [] + words == words;
  }

  // ----- the debug print -----

  /** A printed line. */
  lemma PrintedLine()
    ensures PrintLine(Line("i2c", [("sda", "17"), ("scl", "18")])) == "i2c: {sda: 17, scl: 18}\n"
  {
    var attrs := [("sda", "17"), ("scl", "18")];
    assert attrs[1..] == [("scl", "18")];
  }
}
