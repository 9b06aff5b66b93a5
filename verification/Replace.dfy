/** In-place substitution: `string::replace` of src/utility/string.cpp. */
module Replace {

  /** `std::string::npos` */
  const NPOS := -1

  /** The first position at which `pattern` occurs in `s`. */
  function First(s: string, pattern: string): (r: int)
    ensures r == NPOS || 0 <= r <= r + |pattern| <= |s|
  {
    if |s| < |pattern| then NPOS
    else if pattern <= s then 0
    else
      var later := First(s[1..], pattern);
      if later == NPOS then NPOS else later + 1
  }

  /** `buf.find(pattern, start)` */
  function Find(s: string, pattern: string, start: nat): (r: int)
    requires start <= |s|
    ensures r == NPOS || start <= r <= r + |pattern| <= |s|
  {
    var found := First(s[start..], pattern);
    if found == NPOS then NPOS else start + found
  }

  /** `First` is the least position at which the pattern occurs, if there is one. */
  lemma {:induction false} FirstIsLeast(s: string, pattern: string, j: nat)
    requires j <= |s|
    ensures First(s, pattern) != NPOS ==> pattern <= s[First(s, pattern)..]
    ensures pattern <= s[j..] ==> First(s, pattern) != NPOS && First(s, pattern) <= j
  {
    if |s| >= |pattern| && !(pattern <= s) {
      FirstIsLeast(s[1..], pattern, if j == 0 then 0 else j - 1);
      if j > 0 {
        assert s[1..][j - 1..] == s[j..];
      }
      var later := First(s[1..], pattern);
      if later != NPOS {
        assert s[1..][later..] == s[later + 1..];
      }
    }
  }

  /** Text behind the first occurrence does not matter. */
  lemma {:induction false} FirstIgnoresRest(front: string, rest: string, pattern: string)
    requires First(front, pattern) != NPOS
    ensures First(front + rest, pattern) == First(front, pattern)
  {
    if pattern <= front {
      assert pattern == (front + rest)[..|pattern|];
    } else {
      assert front[..|pattern|] == (front + rest)[..|pattern|];
      FirstIgnoresRest(front[1..], rest, pattern);
      assert (front + rest)[1..] == front[1..] + rest;
    }
  }

  lemma {:induction false} FirstInFront(front: string, rest: string, pattern: string)
    requires First(front + rest, pattern) != NPOS
    requires First(front + rest, pattern) + |pattern| <= |front|
    ensures First(front, pattern) == First(front + rest, pattern)
  {
    assert front[..|pattern|] == (front + rest)[..|pattern|];
    if !(pattern <= front + rest) {
      assert (front + rest)[1..] == front[1..] + rest;
      FirstInFront(front[1..], rest, pattern);
    }
  }

  // ----- The reference: the leftmost, non-overlapping occurrences cut a text into pieces -----

  function Glue(pieces: seq<string>, glue: string): string {
    if pieces == [] then ""
    else if |pieces| == 1 then pieces[0]
    else pieces[0] + glue + Glue(pieces[1..], glue)
  }

  /** The first occurrence of `pattern` in `piece + pattern` is the one behind the piece. */
  ghost predicate EndsAtFirst(piece: string, pattern: string) {
    First(piece + pattern, pattern) == |piece|
  }

  /** `pieces` is what lies between the occurrences met from left to right, each behind the one before. */
  ghost predicate LeftmostCut(s: string, pattern: string, pieces: seq<string>) {
    && pieces != [] && Glue(pieces, pattern) == s
    && (forall i :: 0 <= i < |pieces| - 1 ==> EndsAtFirst(pieces[i], pattern))
    && First(pieces[|pieces| - 1], pattern) == NPOS
  }

  function Pieces(s: string, pattern: string): (pieces: seq<string>)
    requires pattern != ""
    ensures pieces != []
    decreases |s|
  {
    var at := First(s, pattern);
    if at == NPOS then [s] else [s[..at]] + Pieces(s[at + |pattern|..], pattern)
  }

  lemma SplitAt(s: string, pattern: string, at: nat)
    requires at + |pattern| <= |s| && pattern <= s[at..]
    ensures s == s[..at] + pattern + s[at + |pattern|..]
  {
    assert s[at..] == pattern + s[at..][|pattern|..];
    assert s == s[..at] + s[at..];
  }

  lemma CutAtFirst(s: string, pattern: string)
    requires pattern != "" && First(s, pattern) != NPOS
    ensures var at := First(s, pattern);
            && s == s[..at] + pattern + s[at + |pattern|..]
            && EndsAtFirst(s[..at], pattern)
  {
    var at := First(s, pattern);
    FirstIsLeast(s, pattern, 0);
    SplitAt(s, pattern, at);
    FirstInFront(s[..at] + pattern, s[at + |pattern|..], pattern);
  }

  /** The pieces are a leftmost cut. */
  lemma {:induction false} PiecesAreLeftmost(s: string, pattern: string)
    requires pattern != ""
    ensures LeftmostCut(s, pattern, Pieces(s, pattern))
    decreases |s|
  {
    var at := First(s, pattern);
    if at != NPOS {
      CutAtFirst(s, pattern);
      var tail := Pieces(s[at + |pattern|..], pattern);
      PiecesAreLeftmost(s[at + |pattern|..], pattern);
      var pieces := [s[..at]] + tail;
      assert pieces[1..] == tail;
      forall i | 0 <= i < |pieces| - 1 ensures EndsAtFirst(pieces[i], pattern) {
        if i > 0 {
          assert pieces[i] == tail[i - 1];
        }
      }
      assert pieces[|pieces| - 1] == tail[|tail| - 1];
    }
  }

  /** There is only one leftmost cut. */
  lemma {:induction false} LeftmostCutIsUnique(s: string, pattern: string, pieces: seq<string>)
    requires pattern != "" && LeftmostCut(s, pattern, pieces)
    ensures pieces == Pieces(s, pattern)
    decreases |pieces|
  {
    if |pieces| > 1 {
      var piece, tail := pieces[0], pieces[1..];
      var rest := Glue(tail, pattern);
      FirstIgnoresRest(piece + pattern, rest, pattern);
      assert s == piece + pattern + rest;
      assert s[..|piece|] == piece;
      assert s[|piece| + |pattern|..] == rest;
      forall i | 0 <= i < |tail| - 1 ensures EndsAtFirst(tail[i], pattern) {
        assert tail[i] == pieces[i + 1];
      }
      LeftmostCutIsUnique(rest, pattern, tail);
      assert pieces == [piece] + tail;
    }
  }

  /** The text with every leftmost occurrence of `pattern` replaced. */
  function Replaced(s: string, pattern: string, substitute: string): string
    requires pattern != ""
  {
    Glue(Pieces(s, pattern), substitute)
  }

  /** A text is the result exactly if it comes from some leftmost cut by gluing with `substitute`. */
  lemma ReplacedIsLeftmostSubstitution(s: string, pattern: string, substitute: string, result: string)
    requires pattern != ""
    ensures result == Replaced(s, pattern, substitute) <==>
            exists pieces :: LeftmostCut(s, pattern, pieces) && result == Glue(pieces, substitute)
  {
    PiecesAreLeftmost(s, pattern);
    if exists pieces :: LeftmostCut(s, pattern, pieces) && result == Glue(pieces, substitute) {
      var pieces :| LeftmostCut(s, pattern, pieces) && result == Glue(pieces, substitute);
      LeftmostCutIsUnique(s, pattern, pieces);
    }
  }

  // ----- The source's loop -----

  function Spliced(text: string, pos: nat, length: nat, to: string): string
    requires pos + length <= |text|
  {
    text[..pos] + to + text[pos + length..]
  }

  class Buffer {
    var text: string

    constructor (text: string)
      ensures this.text == text
    {
      this.text := text;
    }

    /** `std::string::replace` */
    method Splice(pos: nat, length: nat, to: string)
      requires pos + length <= |text|
      modifies this
      ensures text == Spliced(old(text), pos, length, to)
    {
      text := text[..pos] + to + text[pos + length..];
    }
  }

  /** `text` is a finished part and a rest of the original that has not been looked at; `pos` is the next match. */
  ghost predicate Scanning(text: string, pos: int, done: string, rest: string, from: string, to: string, result: string)
    requires from != ""
  {
    && text == done + rest
    && done + Replaced(rest, from, to) == result
    && pos == NextIn(rest, from, |done|)
  }

  /** The first occurrence in `rest`, in a text that has n characters before it. */
  function NextIn(rest: string, pattern: string, n: nat): int {
    if First(rest, pattern) == NPOS then NPOS else n + First(rest, pattern)
  }

  lemma FindBehind(done: string, rest: string, pattern: string)
    ensures Find(done + rest, pattern, |done|) == NextIn(rest, pattern, |done|)
  {
    assert (done + rest)[|done|..] == rest;
  }

  lemma ReplacedStep(rest: string, from: string, to: string)
    requires from != "" && First(rest, from) != NPOS
    ensures var at := First(rest, from);
            Replaced(rest, from, to) == rest[..at] + to + Replaced(rest[at + |from|..], from, to)
  {
    var at := First(rest, from);
    var pieces := Pieces(rest, from);
    assert pieces[1..] == Pieces(rest[at + |from|..], from);
  }

  lemma SplicedBehind(done: string, rest: string, at: nat, length: nat, to: string)
    requires at + length <= |rest|
    ensures Spliced(done + rest, |done| + at, length, to) == (done + rest[..at] + to) + rest[at + length..]
  {
    assert (done + rest)[..|done| + at] == done + rest[..at];
    assert (done + rest)[|done| + at + length..] == rest[at + length..];
  }

  lemma Regroup(a: string, b: string, c: string, d: string)
    ensures a + (b + c + d) == (a + b + c) + d
  {
  }

  lemma ScanningGoesOn(text: string, pos: nat, done: string, rest: string,
                                          from: string, to: string, result: string)
    returns (done': string, rest': string)
    requires from != "" && Scanning(text, pos, done, rest, from, to, result)
    ensures pos + |from| <= |text| && |done'| == pos + |to| && |rest'| < |rest|
    ensures Spliced(text, pos, |from|, to) == done' + rest'
    ensures done' + Replaced(rest', from, to) == result
  {
    var at := First(rest, from);
    done', rest' := done + rest[..at] + to, rest[at + |from|..];
    ReplacedStep(rest, from, to);
    SplicedBehind(done, rest, at, |from|, to);
    Regroup(done, rest[..at], to, Replaced(rest', from, to));
  }

  lemma ScanningStarts(text: string, from: string, to: string)
    requires from != ""
    ensures Scanning(text, Find(text, from, 0), "", text, from, to, Replaced(text, from, to))
  {
    assert "" + text == text;
    assert "" + Replaced(text, from, to) == Replaced(text, from, to);
    FindBehind("", text, from);
  }

  lemma ScanningEnds(text: string, done: string, rest: string, from: string, to: string, result: string)
    requires from != "" && Scanning(text, NPOS, done, rest, from, to, result)
    ensures text == result
  {
  }

  /** Inserted text is never looked at again: what is scanned is the rest of the original. */
  method ReplaceAll(buf: Buffer, from: string, to: string)
    requires from != ""
    modifies buf
    ensures buf.text == Replaced(old(buf.text), from, to)
  {
    ghost var result := Replaced(buf.text, from, to);
    ghost var done, rest := "", buf.text;
    ScanningStarts(buf.text, from, to);
    var pos := Find(buf.text, from, 0);
    while pos != NPOS
      invariant Scanning(buf.text, pos, done, rest, from, to, result)
      decreases |rest|
    {
      done, rest := ScanningGoesOn(buf.text, pos, done, rest, from, to, result);
      buf.Splice(pos, |from|, to);
      FindBehind(done, rest, from);
      pos := Find(buf.text, from, pos + |to|);
    }
    ScanningEnds(buf.text, done, rest, from, to, result);
  }

  /** With an empty pattern the loop does not end: after each turn the next match is there at once. */
  lemma EmptyPatternMatchesAgain(text: string, pos: nat, to: string)
    requires pos <= |text|
    ensures pos + |to| <= |Spliced(text, pos, 0, to)|
    ensures Find(Spliced(text, pos, 0, to), "", pos + |to|) == pos + |to|
  {
  }
}
