/** Shared library file names (src/utility/filesystem.cpp, src/utility/sharedLibs.cpp). */
module SharedLibs {
  import opened Wrappers
  import opened Text

  const SO: string := ".so"

  /** The names of the dynamic linker's own files, e.g. ld.so.conf and ld.so.cache. */
  predicate EndsLikeConfig(name: string) {
    EndsWith(name, ".conf") || EndsWith(name, ".cache")
  }

  /** `isSharedLib` on a path with this file name; `isDir` is what is_directory says of the path. */
  predicate IsSharedLib(name: string, isDir: bool) {
    && !isDir
    && !EndsLikeConfig(name)
    && var dot := FindEnd(name, SO);
       dot >= 0 && (dot + 3 == |name| || name[dot + 3] == '.')
  }

  /** `getLinkerName` */
  function GetLinkerName(name: string): Result<string> {
    var dot := FindEnd(name, SO);
    if dot < 0 || (dot + 3 != |name| && name[dot + 3] != '.') then Error
    else Ok(name[..dot + 3])
  }

  /** `parseAbi` */
  function ParseAbi(name: string, isDir: bool): Result<seq<string>> {
    if !IsSharedLib(name, isDir) then Error
    else
      var dot := FindEnd(name, SO);
      if dot + 3 == |name| then Ok([])
      else Ok(Split(name[dot + 4..], '.'))
  }

  predicate SoAt(name: string, at: int) {
    0 <= at && at + 3 <= |name| && name[at..at + 3] == ".so"
  }

  /** The last ".so" of a name. */
  predicate LastSo(name: string, at: int) {
    SoAt(name, at) && forall j :: at < j < |name| ==> !SoAt(name, j)
  }

  /**
   * What counts as a shared library, and what its linker name is: the last ".so" has to end the name or
   * be followed by a dot.
   */
  lemma LibraryNames(name: string, isDir: bool)
    ensures GetLinkerName(name).Ok? <==>
            exists at :: LastSo(name, at) && (at + 3 == |name| || name[at + 3] == '.')
    ensures forall at :: LastSo(name, at) && GetLinkerName(name).Ok? ==> GetLinkerName(name).value == name[..at + 3]
    ensures IsSharedLib(name, isDir) <==>
            && !isDir && !EndsWith(name, ".conf") && !EndsWith(name, ".cache")
            && exists at :: LastSo(name, at) && (at + 3 == |name| || name[at + 3] == '.')
    ensures ParseAbi(name, isDir).Ok? <==> IsSharedLib(name, isDir)
  {
    var dot := FindEnd(name, SO);
    forall j ensures SoAt(name, j) <==> MatchAt(name, SO, j) {
    }
    if dot >= 0 {
      assert LastSo(name, dot);
    }
    forall at | LastSo(name, at) ensures at == dot {
      assert MatchAt(name, SO, at);
      assert SoAt(name, dot);
    }
  }

  /** The text of an ABI behind the linker name. */
  function Suffix(abi: seq<string>): string {
    if abi == [] then "" else "." + abi[0] + Suffix(abi[1..])
  }

  predicate DotFree(abi: seq<string>) {
    forall i :: 0 <= i < |abi| ==> Free(abi[i], '.')
  }

  lemma {:induction false} SuffixIsJoin(abi: seq<string>)
    requires abi != []
    ensures Suffix(abi) == "." + Join(abi, '.')
  {
    if |abi| > 1 {
      SuffixIsJoin(abi[1..]);
      assert "." + abi[0] + ("." + Join(abi[1..], '.')) == "." + (abi[0] + "." + Join(abi[1..], '.'));
    } else {
      assert "." + abi[0] + "" == "." + abi[0];
    }
  }

  lemma TailIsSuffix(tail: string)
    ensures "." + tail == Suffix(Split(tail, '.'))
    ensures DotFree(Split(tail, '.'))
  {
    JoinSplit(tail, '.');
    SplitTokensFree(tail, '.');
    SuffixIsJoin(Split(tail, '.'));
  }

  lemma CutAtDot(name: string, at: nat)
    requires at < |name| && name[at] == '.'
    ensures name == name[..at] + ("." + name[at + 1..])
  {
  }

  /** Every library name is its linker name followed by its ABI, dot by dot. */
  lemma NameSplits(name: string)
    requires IsSharedLib(name, false)
    ensures GetLinkerName(name).Ok? && ParseAbi(name, false).Ok?
    ensures name == GetLinkerName(name).value + Suffix(ParseAbi(name, false).value)
    ensures DotFree(ParseAbi(name, false).value)
  {
    var dot := FindEnd(name, SO);
    if dot + 3 < |name| {
      CutAtDot(name, dot + 3);
      TailIsSuffix(name[dot + 4..]);
    } else {
      assert name[..dot + 3] + "" == name;
    }
  }

  /** Linker name and ABI together identify the name. */
  lemma NamesAreDetermined(a: string, b: string)
    requires IsSharedLib(a, false) && IsSharedLib(b, false)
    requires GetLinkerName(a) == GetLinkerName(b) && ParseAbi(a, false) == ParseAbi(b, false)
    ensures a == b
  {
    NameSplits(a);
    NameSplits(b);
  }

  /** A linker name is its own linker name, and has the empty ABI. */
  lemma LinkerNameIsIdempotent(name: string)
    requires GetLinkerName(name).Ok?
    ensures var linker := GetLinkerName(name).value;
            && GetLinkerName(linker) == Ok(linker)
            && ParseAbi(linker, false) == Ok([])
  {
    var linker := GetLinkerName(name).value;
    assert linker[|linker| - 3..] == name[|linker| - 3..|linker|];
    LinkerShape(linker);
    assert linker[..|linker| - 3 + 3] == linker;
  }

  lemma LastCharOfSuffix(s: string, suffix: string)
    requires suffix != "" && EndsWith(s, suffix)
    ensures s[|s| - 1] == suffix[|suffix| - 1]
  {
    assert s[|s| - 1] == s[|s| - |suffix|..][|suffix| - 1];
  }

  lemma SuffixesClash(s: string, a: string, b: string)
    requires a != "" && b != "" && a[|a| - 1] != b[|b| - 1] && EndsWith(s, a)
    ensures !EndsWith(s, b)
  {
    LastCharOfSuffix(s, a);
    if EndsWith(s, b) {
      LastCharOfSuffix(s, b);
    }
  }

  lemma LinkerShape(linker: string)
    requires EndsWith(linker, SO)
    ensures FindEnd(linker, SO) == |linker| - 3
    ensures !EndsLikeConfig(linker)
  {
    assert linker[|linker| - 3..|linker| - 3 + 3] == linker[|linker| - 3..];
    assert MatchAt(linker, SO, |linker| - 3);
    SuffixesClash(linker, SO, ".conf");
    SuffixesClash(linker, SO, ".cache");
  }

  // ----- Which names does printing a linker name and an ABI give back? -----

  predicate StartsWithSo(abi: seq<string>) {
    exists i :: 0 <= i < |abi| && "so" <= abi[i]
  }

  lemma MatchIsDot(s: string, j: int)
    requires MatchAt(s, SO, j)
    ensures s[j] == '.' && s[j + 1] == 's' && s[j + 2] == 'o'
  {
    var m := s[j..j + 3];
    assert m[0] == s[j] && m[1] == s[j + 1] && m[2] == s[j + 2];
  }

  lemma MatchFromDot(s: string, j: nat)
    requires j + 3 <= |s| && s[j] == '.' && s[j + 1] == 's' && s[j + 2] == 'o'
    ensures MatchAt(s, SO, j)
  {
    assert s[j..j + 3] == SO;
  }

  /** ".so" occurs in an ABI's text exactly when a token starts with "so". */
  lemma {:induction false} SuffixHasSo(abi: seq<string>) returns (j: nat)
    requires DotFree(abi) && StartsWithSo(abi)
    ensures MatchAt(Suffix(abi), SO, j)
  {
    var s := Suffix(abi);
    if "so" <= abi[0] {
      j := 0;
      assert s == "." + (abi[0] + Suffix(abi[1..]));
      assert s[1] == abi[0][0] && s[2] == abi[0][1];
    } else {
      var i :| 0 <= i < |abi| && "so" <= abi[i];
      assert abi[1..][i - 1] == abi[i];
      var k := SuffixHasSo(abi[1..]);
      j := 1 + |abi[0]| + k;
      MatchIsDot(Suffix(abi[1..]), k);
      assert s[j..] == Suffix(abi[1..])[k..];
      assert s[j] == s[j..][0] && s[j + 1] == s[j..][1] && s[j + 2] == s[j..][2];
    }
    MatchFromDot(s, j);
  }

  lemma {:induction false} SoInSuffix(abi: seq<string>, j: int)
    requires DotFree(abi) && MatchAt(Suffix(abi), SO, j)
    ensures StartsWithSo(abi)
  {
    var s := Suffix(abi);
    MatchIsDot(s, j);
    var tail := Suffix(abi[1..]);
    assert s == "." + abi[0] + tail;
    assert forall i :: 1 <= i <= |abi[0]| ==> s[i] == abi[0][i - 1] && s[i] != '.';
    assert s[1 + |abi[0]|..] == tail;
    assert tail != "" ==> s[1 + |abi[0]|] == tail[0] == '.';
    if j == 0 {
      assert |abi[0]| >= 2;
      assert abi[0][0] == s[1] && abi[0][1] == s[2];
    } else {
      var k := j - 1 - |abi[0]|;
      assert s[j..] == tail[k..];
      assert tail[k] == s[j..][0] && tail[k + 1] == s[j..][1] && tail[k + 2] == s[j..][2];
      MatchFromDot(tail, k);
      SoInSuffix(abi[1..], k);
      var i :| 0 <= i < |abi[1..]| && "so" <= abi[1..][i];
      assert abi[i + 1] == abi[1..][i];
    }
  }

  lemma PrintedDot(linker: string, abi: seq<string>)
    requires EndsWith(linker, SO) && DotFree(abi)
    ensures FindEnd(linker + Suffix(abi), SO) >= |linker| - 3
    ensures FindEnd(linker + Suffix(abi), SO) == |linker| - 3 <==> !StartsWithSo(abi)
  {
    var name := linker + Suffix(abi);
    var at := |linker| - 3;
    LinkerShape(linker);
    assert name[at..at + 3] == linker[at..at + 3];
    assert MatchAt(name, SO, at);
    var dot := FindEnd(name, SO);
    if StartsWithSo(abi) {
      var j := SuffixHasSo(abi);
      MatchIsDot(Suffix(abi), j);
      MatchFromDot(name, |linker| + j);
    } else if dot > at {
      MatchIsDot(name, dot);
      MatchIsDot(linker, at);
      var k := dot - |linker|;
      assert k >= 0;
      MatchFromDot(Suffix(abi), k);
      SoInSuffix(abi, k);
    }
  }

  lemma LastTokenEnds(front: string, token: string, word: string)
    requires Free(token, '.') && Free(word, '.')
    ensures EndsWith(front + ("." + token), "." + word) <==> token == word
  {
    var whole := front + ("." + token);
    var d := |front|;
    assert whole[d] == '.' && whole[d + 1..] == token;
    assert forall m :: d < m < |whole| ==> whole[m] == token[m - d - 1] && whole[m] != '.';
    if EndsWith(whole, "." + word) {
      var k := |whole| - |word| - 1;
      var end := whole[k..];
      assert forall m :: k < m < |whole| ==> whole[m] == end[m - k] == word[m - k - 1] && whole[m] != '.';
      assert whole[k] == end[0];
      assert end[1..] == word;
    }
  }

  /** The last token of an ABI decides how its text ends. */
  lemma {:induction false} SuffixEnd(front: string, abi: seq<string>, word: string)
    requires abi != [] && DotFree(abi) && Free(word, '.')
    ensures EndsWith(front + Suffix(abi), "." + word) <==> abi[|abi| - 1] == word
    decreases |abi|
  {
    if |abi| > 1 {
      var longer := front + ("." + abi[0]);
      SuffixEnd(longer, abi[1..], word);
      assert front + Suffix(abi) == longer + Suffix(abi[1..]);
    } else {
      assert Suffix(abi) == "." + abi[0];
      LastTokenEnds(front, abi[0], word);
    }
  }

  predicate NamesConfig(abi: seq<string>) {
    abi != [] && (abi[|abi| - 1] == "conf" || abi[|abi| - 1] == "cache")
  }

  lemma PrintedNameConfig(linker: string, abi: seq<string>)
    requires EndsWith(linker, SO) && DotFree(abi)
    ensures EndsLikeConfig(linker + Suffix(abi)) <==> NamesConfig(abi)
  {
    PrintedNameEnds(linker, abi, "conf", ".conf");
    PrintedNameEnds(linker, abi, "cache", ".cache");
  }

  /** The name reads back as this linker name and this ABI. */
  predicate ReadsBack(name: string, linker: string, abi: seq<string>) {
    && IsSharedLib(name, false)
    && GetLinkerName(name) == Ok(linker)
    && ParseAbi(name, false) == Ok(abi)
  }

  lemma PrintedNameParses(linker: string, abi: seq<string>)
    requires EndsWith(linker, SO) && DotFree(abi) && !StartsWithSo(abi)
    ensures var name := linker + Suffix(abi);
            && GetLinkerName(name) == Ok(linker)
            && (ReadsBack(name, linker, abi) <==> !EndsLikeConfig(name))
  {
    var name := linker + Suffix(abi);
    PrintedDot(linker, abi);
    assert name[..|linker|] == linker;
    if abi != [] {
      SuffixIsJoin(abi);
      SplitJoin(abi, '.');
      assert name[|linker|] == '.';
      assert name[|linker| + 1..] == Join(abi, '.');
    }
  }

  lemma PrintedNameMisparses(linker: string, abi: seq<string>)
    requires EndsWith(linker, SO) && DotFree(abi) && StartsWithSo(abi)
    ensures !ReadsBack(linker + Suffix(abi), linker, abi)
  {
    PrintedDot(linker, abi);
  }

  lemma PrintedNameEnds(linker: string, abi: seq<string>, word: string, dotted: string)
    requires EndsWith(linker, SO) && DotFree(abi)
    requires Free(word, '.') && word != "" && word[|word| - 1] != 'o' && dotted == "." + word
    ensures EndsWith(linker + Suffix(abi), dotted) <==> abi != [] && abi[|abi| - 1] == word
  {
    if abi == [] {
      SuffixesClash(linker, SO, dotted);
      assert linker + Suffix(abi) == linker;
    } else {
      SuffixEnd(linker, abi, word);
    }
  }

  /**
   * Printing then parsing gives the same linker name and ABI exactly when no token starts
   * with "so" and the last one is neither "conf" nor "cache".
   */
  lemma PrintedNameParsesBack(linker: string, abi: seq<string>)
    requires EndsWith(linker, SO) && DotFree(abi)
    ensures ReadsBack(linker + Suffix(abi), linker, abi) <==>
            !StartsWithSo(abi) && !NamesConfig(abi)
  {
    PrintedNameConfig(linker, abi);
    if StartsWithSo(abi) {
      PrintedNameMisparses(linker, abi);
    } else {
      PrintedNameParses(linker, abi);
    }
  }
}
