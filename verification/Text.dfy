/** The string primitives the sources take from the C++ and boost libraries. */
module Text {

  predicate Free(s: string, c: char) {
    forall i :: 0 <= i < |s| ==> s[i] != c
  }

  /** `boost::split` on one separator, without token compression. */
  function Split(s: string, c: char): (r: seq<string>)
    ensures r != []
  {
    if s == "" then [""]
    else if s[0] == c then [""] + Split(s[1..], c)
    else
      var r := Split(s[1..], c);
      [[s[0]] + r[0]] + r[1..]
  }

  function Join(ts: seq<string>, c: char): string {
    if ts == [] then ""
    else if |ts| == 1 then ts[0]
    else ts[0] + [c] + Join(ts[1..], c)
  }

  lemma {:induction false} JoinSplit(s: string, c: char)
    ensures Join(Split(s, c), c) == s
  {
    if s != "" {
      JoinSplit(s[1..], c);
      var r := Split(s[1..], c);
      assert s == [s[0]] + s[1..];
      if s[0] == c {
        assert Split(s, c)[1..] == r;
      } else {
        assert Split(s, c)[1..] == r[1..];
        JoinHead([s[0]], r, c);
      }
    }
  }

  lemma JoinHead(a: string, ts: seq<string>, c: char)
    requires ts != []
    ensures Join([a + ts[0]] + ts[1..], c) == a + Join(ts, c)
  {
    var all := [a + ts[0]] + ts[1..];
    assert all[1..] == ts[1..];
    if |ts| > 1 {
      var tail := Join(ts[1..], c);
      assert a + ts[0] + [c] + tail == a + (ts[0] + [c] + tail);
    }
  }

  lemma {:induction false} SplitTokensFree(s: string, c: char)
    ensures forall i :: 0 <= i < |Split(s, c)| ==> Free(Split(s, c)[i], c)
  {
    if s != "" {
      SplitTokensFree(s[1..], c);
      var r := Split(s[1..], c);
      assert Free(r[0], c);
    }
  }

  lemma {:induction false} SplitFree(s: string, c: char)
    requires Free(s, c)
    ensures Split(s, c) == [s]
  {
    if s != "" {
      assert Free(s[1..], c);
      SplitFree(s[1..], c);
      assert [s[0]] + s[1..] == s;
    }
  }

  lemma {:induction false} SplitCons(s: string, c: char, rest: string)
    requires Free(s, c)
    ensures Split(s + [c] + rest, c) == [s] + Split(rest, c)
  {
    var whole := s + [c] + rest;
    if s == "" {
      assert whole[1..] == rest;
    } else {
      assert Free(s[1..], c);
      SplitCons(s[1..], c, rest);
      assert whole[1..] == s[1..] + [c] + rest;
      assert [s[0]] + s[1..] == s;
    }
  }

  lemma {:induction false} SplitJoin(ts: seq<string>, c: char)
    requires ts != [] && forall i :: 0 <= i < |ts| ==> Free(ts[i], c)
    ensures Split(Join(ts, c), c) == ts
  {
    if |ts| == 1 {
      SplitFree(ts[0], c);
    } else {
      SplitJoin(ts[1..], c);
      SplitCons(ts[0], c, Join(ts[1..], c));
    }
  }

  lemma {:induction false} JoinSnoc(ts: seq<string>, last: string, c: char)
    requires ts != []
    ensures Join(ts + [last], c) == Join(ts, c) + [c] + last
    decreases |ts|
  {
    var all := ts + [last];
    if |ts| == 1 {
      assert all[1..] == [last];
    } else {
      JoinSnoc(ts[1..], last, c);
      assert all[1..] == ts[1..] + [last];
      assert all[0] + [c] + (Join(ts[1..], c) + [c] + last) == (all[0] + [c] + Join(ts[1..], c)) + [c] + last;
    }
  }

  predicate MatchAt(s: string, pattern: string, i: int) {
    0 <= i && i + |pattern| <= |s| && s[i..i + |pattern|] == pattern
  }

  /** The largest match position below `below`, or -1. */
  function LastMatchBelow(s: string, pattern: string, below: nat): (r: int)
    ensures -1 <= r < below
    ensures r >= 0 ==> MatchAt(s, pattern, r)
    ensures forall j :: r < j < below ==> !MatchAt(s, pattern, j)
  {
    if below == 0 then -1
    else if MatchAt(s, pattern, below - 1) then below - 1
    else LastMatchBelow(s, pattern, below - 1)
  }

  /** `std::find_end`: the start of the last match, or -1. */
  function FindEnd(s: string, pattern: string): (r: int)
    ensures r >= 0 ==> MatchAt(s, pattern, r)
    ensures forall j :: r < j ==> !MatchAt(s, pattern, j)
    ensures r == -1 || 0 <= r
  {
    LastMatchBelow(s, pattern, |s| + 1)
  }

  /** `std::find`: the index of the first `c`, or the length. */
  function IndexOf(s: string, c: char): (r: nat)
    ensures r <= |s| && forall i :: 0 <= i < r ==> s[i] != c
    ensures r < |s| ==> s[r] == c
  {
    if s == "" || s[0] == c then 0 else 1 + IndexOf(s[1..], c)
  }

  lemma SuffixFree(s: string, n: nat, c: char)
    requires n <= |s|
    ensures Free(s[n..], c) <==> forall j :: n <= j < |s| ==> s[j] != c
  {
    var rest := s[n..];
    if Free(rest, c) {
      forall j | n <= j < |s| ensures s[j] != c {
        assert s[j] == rest[j - n];
      }
    }
  }

  predicate EndsWith(s: string, suffix: string) {
    |suffix| <= |s| && s[|s| - |suffix|..] == suffix
  }

  lemma PrefixTransitive<T>(a: seq<T>, b: seq<T>, c: seq<T>)
    requires a <= b && b <= c
    ensures a <= c
  {
    assert a == b[..|a|] == c[..|a|];
  }
}
