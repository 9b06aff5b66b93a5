/**
 * ABI resolution along a symlink chain: `resolveAbi` of src/utility/sharedLibs.cpp.
 *
 * `isDir` is what `boost::filesystem::is_directory` answers on the host for a path; the
 * source asks it for paths that are relative to the root filesystem, so nothing ties it to
 * the tree under that root.
 */
module ResolveAbi {
  import opened Wrappers
  import opened FileTree
  import opened Resolver
  import opened ResolverTermination
  import opened SharedLibs
  import opened Text

  type Abi = seq<string>
  type DirTest = seq<Element> -> bool

  predicate IsLib(els: seq<Element>, isDir: DirTest) {
    IsSharedLib(Filename(els), isDir(els))
  }

  /** A path whose ABI the loop considers. */
  predicate Qualifies(lib: seq<Element>, p: Path, isDir: DirTest) {
    && IsLib(Elements(p), isDir)
    && GetLinkerName(Filename(Elements(p))) == GetLinkerName(Filename(lib))
  }

  function AbiOf(name: string): Abi
    requires IsSharedLib(name, false)
  {
    NameSplits(name);
    ParseAbi(name, false).value
  }

  /** The ABI of a path that qualifies, or nothing. */
  function AbiAt(lib: seq<Element>, p: Path, isDir: DirTest): (abis: seq<Abi>)
    ensures |abis| <= 1
  {
    if Qualifies(lib, p, isDir) then [AbiOf(Filename(Elements(p)))] else []
  }

  function Collect(paths: seq<Path>, pick: Path -> seq<Abi>): seq<Abi> {
    if paths == [] then [] else pick(paths[0]) + Collect(paths[1..], pick)
  }

  /** The ABIs of the paths that qualify, in order. */
  function AbisAlong(lib: seq<Element>, paths: seq<Path>, isDir: DirTest): seq<Abi> {
    Collect(paths, p => AbiAt(lib, p, isDir))
  }

  /** Keep the longest ABI so far, and move to a longer one only if it extends it. */
  function Longest(soFar: Abi, abis: seq<Abi>): Abi
    decreases |abis|
  {
    if abis == [] then soFar
    else Longest(if soFar < abis[0] then abis[0] else soFar, abis[1..])
  }

  /** The links traversed from `lib` to the real library, then the real library. */
  function Chain(t: Tree, lib: seq<Element>): Option<seq<Path>> {
    match Resolve(t, [], lib)
    case None => None
    case Some(r) => Some(r.log + [r.path])
  }

  // ----- The source's loop -----

  /** The loop body's choice between `abi` and the longest so far, as the source computes it. */
  method Consider(abi: Abi, longestAbiSoFar: Abi) returns (next: Abi)
    ensures next == if longestAbiSoFar < abi then abi else longestAbiSoFar
  {
    var shorter := if |abi| < |longestAbiSoFar| then abi else longestAbiSoFar;
    var longer := if |abi| > |longestAbiSoFar| then abi else longestAbiSoFar;
    if shorter != longer[..|shorter|] {
      return longestAbiSoFar;
    }
    next := longer;
  }

  /** One turn of the loop over `pathsToProcess`; `picked` is what the path contributes. */
  method ProcessPath(lib: seq<Element>, path: Path, isDir: DirTest, longestAbiSoFar: Abi, ghost picked: seq<Abi>)
    returns (next: Abi)
    requires IsLib(lib, isDir) && picked == AbiAt(lib, path, isDir)
    ensures next == Longest(longestAbiSoFar, picked)
  {
    var name := Filename(Elements(path));
    if !IsSharedLib(name, isDir(Elements(path))) {
      return longestAbiSoFar;
    }
    if GetLinkerName(name) != GetLinkerName(Filename(lib)) {
      return longestAbiSoFar;
    }
    NameSplits(name);
    var abi := ParseAbi(name, isDir(Elements(path))).value;
    assert AbiAt(lib, path, isDir) == [abi];
    assert [abi][1..] == [];
    next := Consider(abi, longestAbiSoFar);
  }

  method ResolveAbi(t: Tree, lib: seq<Element>, isDir: DirTest, depth: nat) returns (r: Option<Result<Abi>>)
    requires depth >= |Links(t)|
    ensures r == Some(Error) <==> !IsLib(lib, isDir)
    ensures r == Some(Error) <==> isDir(lib) || !IsSharedLib(if lib == [] then "" else lib[|lib| - 1], false)
    ensures IsLib(lib, isDir) && Resolve(t, [], lib).None? ==> r == None
    ensures IsLib(lib, isDir) && Resolve(t, [], lib).Some? ==>
              var resolved := Resolve(t, [], lib).value;
              r == Some(Ok(Longest([], AbisAlong(lib, resolved.log + [resolved.path], isDir))))
  {
    if !IsLib(lib, isDir) {
      return Some(Error);
    }
    var traversedSymlinks := new PathVector();
    var libReal := AppendPathsWithinRootfs(t, [], lib, traversedSymlinks, depth);
    EnoughDepth(t, [], lib, depth);
    if libReal == None {
      return None;
    }
    var pathsToProcess := traversedSymlinks.items + [libReal.value];
    assert [] + Resolve(t, [], lib).value.log == Resolve(t, [], lib).value.log;
    var abi, history := ProcessPaths(lib, pathsToProcess, isDir, p => AbiAt(lib, p, isDir));
    r := Some(Ok(abi));
  }

  /**
   * The loop over `pathsToProcess`; `pick` gives the ABI that a path contributes, and `history` is what
   * `longestAbiSoFar` has been changed to.
   */
  method ProcessPaths(lib: seq<Element>, pathsToProcess: seq<Path>, isDir: DirTest, ghost pick: Path -> seq<Abi>)
    returns (longestAbiSoFar: Abi, ghost history: seq<Abi>)
    requires IsLib(lib, isDir)
    requires forall p :: pick(p) == AbiAt(lib, p, isDir)
    ensures longestAbiSoFar == Longest([], Collect(pathsToProcess, pick))
    ensures history == Taken([], Collect(pathsToProcess, pick))
    ensures Rising([[]] + history) && longestAbiSoFar == ([[]] + history)[|history|]
  {
    longestAbiSoFar, history := [], [];
    assert pathsToProcess[0..] == pathsToProcess;
    for k := 0 to |pathsToProcess|
      invariant OnTheWay(pathsToProcess, k, pick, longestAbiSoFar, history)
    {
      var next := ProcessPath(lib, pathsToProcess[k], isDir, longestAbiSoFar, pick(pathsToProcess[k]));
      NextPath(pathsToProcess, k, pick, longestAbiSoFar, history);
      if next != longestAbiSoFar {
        history := history + [next];
      }
      longestAbiSoFar := next;
    }
    assert history + [] == history;
    ValuesRise([], Collect(pathsToProcess, pick));
  }

  /** What the loop has found so far and what it will find make up the whole. */
  ghost predicate OnTheWay(paths: seq<Path>, k: nat, pick: Path -> seq<Abi>, soFar: Abi, history: seq<Abi>)
    requires k <= |paths|
  {
    && Longest([], Collect(paths, pick)) == Longest(soFar, Collect(paths[k..], pick))
    && Taken([], Collect(paths, pick)) == history + Taken(soFar, Collect(paths[k..], pick))
  }

  lemma NextPath(paths: seq<Path>, k: nat, pick: Path -> seq<Abi>, soFar: Abi, history: seq<Abi>)
    requires k < |paths| && |pick(paths[k])| <= 1 && OnTheWay(paths, k, pick, soFar, history)
    ensures var next := Longest(soFar, pick(paths[k]));
            OnTheWay(paths, k + 1, pick, next, if next != soFar then history + [next] else history)
  {
    var picked, rest := pick(paths[k]), Collect(paths[k + 1..], pick);
    var next := Longest(soFar, picked);
    assert paths[k..][0] == paths[k] && paths[k..][1..] == paths[k + 1..];
    LongestSplits(soFar, picked, rest);
    TakenSplits(soFar, picked, rest);
    TakenOnce(soFar, picked);
    assert history + (Taken(soFar, picked) + Taken(next, rest)) == (history + Taken(soFar, picked)) + Taken(next, rest);
    assert history + [] == history;
  }

  lemma {:induction false} TakenSplits(soFar: Abi, a: seq<Abi>, b: seq<Abi>)
    ensures Taken(soFar, a + b) == Taken(soFar, a) + Taken(Longest(soFar, a), b)
    decreases |a|
  {
    if a == [] {
      assert a + b == b;
    } else {
      assert (a + b)[0] == a[0] && (a + b)[1..] == a[1..] + b;
      TakenSplits(if soFar < a[0] then a[0] else soFar, a[1..], b);
    }
  }

  lemma TakenOnce(soFar: Abi, picked: seq<Abi>)
    requires |picked| <= 1
    ensures Taken(soFar, picked) == if Longest(soFar, picked) != soFar then [Longest(soFar, picked)] else []
  {
    if picked != [] {
      assert picked[1..] == [];
    }
  }

  lemma EnoughDepth(t: Tree, cur: Path, els: seq<Element>, depth: nat)
    requires depth >= |Links(t)|
    ensures Append(t, cur, els, depth) == Resolve(t, cur, els)
  {
    if Append(t, cur, els, depth).Some? {
      LinkCountIsEnough(t, cur, els, depth);
    } else if Resolve(t, cur, els).Some? {
      AppendMonotonic(t, cur, els, |Links(t)|, depth);
    }
  }

  // ----- What the loop keeps -----

  predicate Comparable(a: Abi, b: Abi) {
    a <= b || b <= a
  }

  lemma {:induction false} LongestExtends(soFar: Abi, abis: seq<Abi>)
    ensures soFar <= Longest(soFar, abis)
    decreases |abis|
  {
    if abis != [] {
      LongestExtends(if soFar < abis[0] then abis[0] else soFar, abis[1..]);
    }
  }

  lemma {:induction false} LongestSplits(soFar: Abi, a: seq<Abi>, b: seq<Abi>)
    ensures Longest(soFar, a + b) == Longest(Longest(soFar, a), b)
    decreases |a|
  {
    if a == [] {
      assert a + b == b;
    } else {
      assert (a + b)[0] == a[0] && (a + b)[1..] == a[1..] + b;
      LongestSplits(if soFar < a[0] then a[0] else soFar, a[1..], b);
    }
  }

  /** The values `longestAbiSoFar` takes after the initial one. */
  function Taken(soFar: Abi, abis: seq<Abi>): seq<Abi>
    decreases |abis|
  {
    if abis == [] then []
    else if soFar < abis[0] then [abis[0]] + Taken(abis[0], abis[1..])
    else Taken(soFar, abis[1..])
  }

  ghost predicate Rising(vs: seq<Abi>) {
    forall i, j :: 0 <= i < j < |vs| ==> vs[i] < vs[j]
  }

  lemma RisingCons(x: Abi, vs: seq<Abi>)
    requires vs != [] && Rising(vs) && x < vs[0]
    ensures Rising([x] + vs)
  {
    var all := [x] + vs;
    forall i, j | 0 <= i < j < |all| ensures all[i] < all[j] {
      assert all[j] == vs[j - 1];
      if i > 0 {
        assert all[i] == vs[i - 1];
      } else {
        PrefixTransitive(x, vs[0], vs[j - 1]);
      }
    }
  }

  /** The values form a strictly increasing chain under the prefix order that ends in the result. */
  lemma {:induction false} ValuesRise(soFar: Abi, abis: seq<Abi>)
    ensures var vs := [soFar] + Taken(soFar, abis);
            && Rising(vs)
            && vs[|vs| - 1] == Longest(soFar, abis)
            && forall i :: 0 < i < |vs| ==> vs[i] in abis
    decreases |abis|
  {
    if abis != [] {
      if soFar < abis[0] {
        ValuesRise(abis[0], abis[1..]);
        var tail := [abis[0]] + Taken(abis[0], abis[1..]);
        RisingCons(soFar, tail);
        assert Taken(soFar, abis) == tail;
        assert forall i :: 0 < i < |tail| ==> tail[i] in abis[1..];
      } else {
        ValuesRise(soFar, abis[1..]);
      }
    }
  }

  /** The result seen from position i: what was found before it, then its own turn, then the others. */
  lemma LongestThrough(abis: seq<Abi>, i: nat)
    requires i < |abis|
    ensures var before := Longest([], abis[..i]);
            Longest([], abis) == Longest(if before < abis[i] then abis[i] else before, abis[i + 1..])
  {
    assert abis == abis[..i] + abis[i..];
    LongestSplits([], abis[..i], abis[i..]);
    assert abis[i..][0] == abis[i] && abis[i..][1..] == abis[i + 1..];
  }

  /** Exactly the ABIs comparable with what was found before them end up as prefixes of the result. */
  lemma KeptIffComparable(abis: seq<Abi>, i: nat)
    requires i < |abis|
    ensures abis[i] <= Longest([], abis) <==> Comparable(Longest([], abis[..i]), abis[i])
  {
    var before := Longest([], abis[..i]);
    LongestThrough(abis, i);
    LongestExtends(if before < abis[i] then abis[i] else before, abis[i + 1..]);
    var r := Longest([], abis);
    PrefixTransitive(before, if before < abis[i] then abis[i] else before, r);
    if abis[i] <= r {
      PrefixesCompare(before, abis[i], r);
    } else if abis[i] <= before {
      PrefixTransitive(abis[i], before, r);
    }
  }

  lemma PrefixesCompare(a: Abi, b: Abi, c: Abi)
    requires a <= c && b <= c
    ensures Comparable(a, b)
  {
    assert a == c[..|a|] && b == c[..|b|];
    if |a| <= |b| {
      assert a == b[..|a|];
    } else {
      assert b == a[..|b|];
    }
  }

  /** No ABI on the way, accepted or rejected, strictly extends the result. */
  lemma NothingExtendsResult(abis: seq<Abi>, i: nat)
    requires i < |abis|
    ensures !(Longest([], abis) < abis[i])
  {
    var before := Longest([], abis[..i]);
    var next := if before < abis[i] then abis[i] else before;
    LongestThrough(abis, i);
    LongestExtends(next, abis[i + 1..]);
    if !(before < abis[i]) {
      NotBelow(before, Longest([], abis), abis[i]);
    }
  }

  lemma NotBelow(a: Abi, b: Abi, c: Abi)
    requires a <= b && !(a < c)
    ensures !(b < c)
  {
    if b < c {
      PrefixTransitive(a, b, c);
    }
  }

  // ----- End to end -----

  lemma {:induction false} CollectSplits(a: seq<Path>, b: seq<Path>, pick: Path -> seq<Abi>)
    ensures Collect(a + b, pick) == Collect(a, pick) + Collect(b, pick)
    decreases |a|
  {
    if a == [] {
      assert a + b == b;
    } else {
      assert (a + b)[0] == a[0] && (a + b)[1..] == a[1..] + b;
      CollectSplits(a[1..], b, pick);
    }
  }

  lemma {:induction false} CollectedFrom(paths: seq<Path>, pick: Path -> seq<Abi>, abi: Abi) returns (k: nat)
    requires abi in Collect(paths, pick)
    ensures k < |paths| && abi in pick(paths[k])
    decreases |paths|
  {
    if abi in pick(paths[0]) {
      k := 0;
    } else {
      var j := CollectedFrom(paths[1..], pick, abi);
      k := j + 1;
    }
  }

  lemma {:induction false} CollectNothing(paths: seq<Path>, pick: Path -> seq<Abi>)
    requires forall i :: 0 <= i < |paths| ==> pick(paths[i]) == []
    ensures Collect(paths, pick) == []
    decreases |paths|
  {
    if paths != [] {
      CollectNothing(paths[1..], pick);
    }
  }

  /** The linker name of `lib` followed by this ABI is the file name of one of the paths. */
  ghost predicate SpelledBy(lib: seq<Element>, paths: seq<Path>, abi: Abi) {
    exists i :: 0 <= i < |paths| && GetLinkerName(Filename(lib)) == GetLinkerName(Filename(Elements(paths[i])))
      && GetLinkerName(Filename(lib)).Ok?
      && Filename(Elements(paths[i])) == GetLinkerName(Filename(lib)).value + Suffix(abi)
  }

  lemma CollectedIsSpelled(lib: seq<Element>, paths: seq<Path>, isDir: DirTest, abi: Abi)
    requires IsLib(lib, isDir) && abi in AbisAlong(lib, paths, isDir)
    ensures SpelledBy(lib, paths, abi)
  {
    NameSplits(Filename(lib));
    var k := CollectedFrom(paths, p => AbiAt(lib, p, isDir), abi);
    NameSplits(Filename(Elements(paths[k])));
  }

  /** A nonempty result, behind the linker name, is the file name of a path on the chain. */
  lemma ResultIsSpelled(t: Tree, lib: seq<Element>, isDir: DirTest)
    requires IsLib(lib, isDir) && Chain(t, lib).Some?
    ensures var paths := Chain(t, lib).value;
            var abi := Longest([], AbisAlong(lib, paths, isDir));
            abi == [] || SpelledBy(lib, paths, abi)
  {
    var paths := Chain(t, lib).value;
    var abis := AbisAlong(lib, paths, isDir);
    ValuesRise([], abis);
    if Longest([], abis) != [] {
      CollectedIsSpelled(lib, paths, isDir, Longest([], abis));
    }
  }

  /** The elements of `lib` before its file name. */
  function Folder(lib: seq<Element>): seq<Element>
    requires lib != []
  {
    lib[..|lib| - 1]
  }

  /** The entry for the requested library itself: where its folder resolves to, and its name. */
  function Entry(t: Tree, lib: seq<Element>): Path
    requires lib != [] && Resolve(t, [], Folder(lib)).Some?
  {
    Resolve(t, [], Folder(lib)).value.path + [Filename(lib)]
  }

  lemma LibNameIsPlain(name: string)
    requires IsSharedLib(name, false)
    ensures Plain(name)
  {
    var dot := FindEnd(name, SO);
    assert |name| >= 3;
  }

  /** The chain is the links met in the folder, then the library's own entry, then the rest. */
  lemma ChainHasEntry(t: Tree, lib: seq<Element>) returns (rest: seq<Path>)
    requires IsSharedLib(Filename(lib), false) && Chain(t, lib).Some?
    ensures lib != [] && Resolve(t, [], Folder(lib)).Some?
    ensures Chain(t, lib).value == Resolve(t, [], Folder(lib)).value.log + [Entry(t, lib)] + rest
    ensures if IsLink(t, Entry(t, lib)) then rest != [] && rest[|rest| - 1] == Resolve(t, [], lib).value.path
            else rest == [] && Resolve(t, [], lib).value.path == Entry(t, lib)
  {
    var name := Filename(lib);
    LibNameIsPlain(name);
    assert lib != [];
    var n := |Links(t)|;
    assert lib == Folder(lib) + [name];
    AppendComposes(t, [], Folder(lib), [name], n);
    var folder := Resolve(t, [], Folder(lib)).value;
    var entry := folder.path + [name];
    var last := Append(t, folder.path, [name], n).value;
    var paths := Chain(t, lib).value;
    assert paths == folder.log + last.log + [last.path];
    if IsLink(t, entry) {
      assert last.log[0] == entry;
      rest := last.log[1..] + [last.path];
      assert last.log + [last.path] == [entry] + rest;
    } else {
      assert Append(t, folder.path, [name], n) == Append(t, entry, [name][1..], n);
      assert [name][1..] == [];
      rest := [];
    }
    assert paths == folder.log + [entry] + rest;
  }

  /** What the links met in the library's folder leave in `longestAbiSoFar`. */
  function BeforeEntry(t: Tree, lib: seq<Element>, isDir: DirTest): Abi
    requires lib != [] && Resolve(t, [], Folder(lib)).Some?
  {
    Longest([], AbisAlong(lib, Resolve(t, [], Folder(lib)).value.log, isDir))
  }

  lemma KeptInMiddle(before: seq<Abi>, own: Abi, after: seq<Abi>)
    ensures own <= Longest([], before + [own] + after) <==> Comparable(Longest([], before), own)
  {
    var abis := before + [own] + after;
    assert abis[..|before|] == before && abis[|before|] == own;
    KeptIffComparable(abis, |before|);
  }

  lemma CollectAround(a: seq<Path>, p: Path, b: seq<Path>, pick: Path -> seq<Abi>)
    ensures Collect(a + [p] + b, pick) == Collect(a, pick) + pick(p) + Collect(b, pick)
  {
    CollectSplits(a + [p], b, pick);
    CollectSplits(a, [p], pick);
    assert [p][1..] == [];
    assert Collect([p], pick) == pick(p) + [];
  }

  /** An entry with the library's own name contributes the ABI in that name. */
  lemma EntryCounts(lib: seq<Element>, folder: Path, isDir: DirTest)
    requires lib != [] && IsLib(lib, isDir) && !isDir(Elements(folder + [Filename(lib)]))
    ensures AbiAt(lib, folder + [Filename(lib)], isDir) == [AbiOf(Filename(lib))]
  {
    assert Filename(Elements(folder + [Filename(lib)])) == Filename(lib);
  }

  /** The ABIs along the chain: those of the folder's links, the library's own, the others. */
  lemma AbisAroundEntry(t: Tree, lib: seq<Element>, isDir: DirTest) returns (after: seq<Abi>)
    requires IsLib(lib, isDir) && Chain(t, lib).Some?
    ensures lib != [] && Resolve(t, [], Folder(lib)).Some?
    ensures !isDir(Elements(Entry(t, lib))) ==>
              (AbisAlong(lib, Chain(t, lib).value, isDir)
               == AbisAlong(lib, Resolve(t, [], Folder(lib)).value.log, isDir) + [AbiOf(Filename(lib))] + after)
  {
    var rest := ChainHasEntry(t, lib);
    var pick := p => AbiAt(lib, p, isDir);
    after := Collect(rest, pick);
    var folder := Resolve(t, [], Folder(lib)).value;
    CollectAround(folder.log, Entry(t, lib), rest, pick);
    if !isDir(Elements(Entry(t, lib))) {
      EntryCounts(lib, folder.path, isDir);
    }
  }

  /**
   * The result extends the ABI in the requested library's own name exactly when what the
   * links of its folder left is comparable with that ABI.
   */
  lemma ResultExtendsOwnAbi(t: Tree, lib: seq<Element>, isDir: DirTest)
    requires IsLib(lib, isDir) && Chain(t, lib).Some?
    ensures lib != [] && Resolve(t, [], Folder(lib)).Some?
    ensures !isDir(Elements(Entry(t, lib))) ==>
              (AbiOf(Filename(lib)) <= Longest([], AbisAlong(lib, Chain(t, lib).value, isDir)) <==>
               Comparable(BeforeEntry(t, lib, isDir), AbiOf(Filename(lib))))
  {
    var after := AbisAroundEntry(t, lib, isDir);
    KeptInMiddle(AbisAlong(lib, Resolve(t, [], Folder(lib)).value.log, isDir), AbiOf(Filename(lib)), after);
  }

  /** If no link met in the folder carries a name of the same library, the library's own ABI is kept. */
  lemma OwnAbiIsKept(t: Tree, lib: seq<Element>, isDir: DirTest)
    requires IsLib(lib, isDir) && Chain(t, lib).Some?
    requires lib != [] && Resolve(t, [], Folder(lib)).Some?
    requires var log := Resolve(t, [], Folder(lib)).value.log;
             forall i :: 0 <= i < |log| ==> !Qualifies(lib, log[i], isDir)
    requires !isDir(Elements(Entry(t, lib)))
    ensures AbiOf(Filename(lib)) <= Longest([], AbisAlong(lib, Chain(t, lib).value, isDir))
  {
    CollectNothing(Resolve(t, [], Folder(lib)).value.log, p => AbiAt(lib, p, isDir));
    ResultExtendsOwnAbi(t, lib, isDir);
  }

  /** A path counts with the ABI in its name if it is no directory and its name is one of the same library. */
  lemma AbiAtIs(lib: seq<Element>, p: Path, isDir: DirTest)
    requires p != [] && lib != []
    ensures var name, libName := p[|p| - 1], lib[|lib| - 1];
            var counts := && !isDir(["/"] + p) && IsSharedLib(name, false)
                          && GetLinkerName(name) == GetLinkerName(libName);
            && (!counts ==> AbiAt(lib, p, isDir) == [])
            && (counts ==> ParseAbi(name, false).Ok? && AbiAt(lib, p, isDir) == [ParseAbi(name, false).value])
  {
    assert Filename(Elements(p)) == p[|p| - 1];
    if IsSharedLib(p[|p| - 1], false) {
      NameSplits(p[|p| - 1]);
    }
  }

  /** Every traversed link is considered, in order, and after them the real path of the library. */
  lemma ChainIsLogThenReal(t: Tree, lib: seq<Element>)
    requires Resolve(t, [], lib).Some?
    ensures Chain(t, lib).Some?
    ensures var r, chain := Resolve(t, [], lib).value, Chain(t, lib).value;
            && |chain| == |r.log| + 1 && chain[|r.log|] == r.path
            && forall i :: 0 <= i < |r.log| ==> chain[i] == r.log[i]
  {
  }

  /**
   * The ABI of the real library, if that carries a name of the same library, never extends the result
   * strictly, and the result extends it exactly if it is comparable with what the traversed links left.
   */
  lemma RealAbiIsKeptIff(t: Tree, lib: seq<Element>, isDir: DirTest)
    requires IsLib(lib, isDir) && Resolve(t, [], lib).Some?
    requires Qualifies(lib, Resolve(t, [], lib).value.path, isDir)
    ensures var r := Resolve(t, [], lib).value;
            var result := Longest([], AbisAlong(lib, Chain(t, lib).value, isDir));
            var own := AbiOf(Filename(Elements(r.path)));
            && !(result < own)
            && (own <= result <==> Comparable(Longest([], AbisAlong(lib, r.log, isDir)), own))
  {
    var r := Resolve(t, [], lib).value;
    var pick := p => AbiAt(lib, p, isDir);
    var own := AbiOf(Filename(Elements(r.path)));
    CollectAround(r.log, r.path, [], pick);
    assert r.log + [r.path] + [] == Chain(t, lib).value;
    var before := Collect(r.log, pick);
    assert pick(r.path) == [own];
    assert AbisAlong(lib, Chain(t, lib).value, isDir) == before + [own] + [];
    KeptInMiddle(before, own, []);
    assert (before + [own] + [])[|before|] == own;
    NothingExtendsResult(before + [own] + [], |before|);
  }

  /** /libx.so.1, a link to the file /libx.so.1.2 beside it. */
  function VersionedTree(): Tree {
    map[[] := Dir(0, 0, 0), ["libx.so.1"] := Symlink(["libx.so.1.2"]), ["libx.so.1.2"] := File(0, 0, 0)]
  }

  /** There the answer for /libx.so.1 is 1.2. */
  lemma LinkTargetGivesLongerAbi()
    ensures var t, lib, isDir := VersionedTree(), ["/", "libx.so.1"], (els: seq<Element>) => false;
            && WellFormed(t) && IsLib(lib, isDir) && Chain(t, lib).Some?
            && Longest([], AbisAlong(lib, Chain(t, lib).value, isDir)) == ["1", "2"]
  {
    var lib, isDir := ["/", "libx.so.1"], (els: seq<Element>) => false;
    LibxName("libx.so.1", "1");
    LibxTwoTokens();
    VersionedChain();
    assert Filename(lib) == "libx.so.1";
    ReadAbiAt(lib, ["libx.so.1"], isDir, "libx.so.1", "libx.so", ["1"]);
    ReadAbiAt(lib, ["libx.so.1.2"], isDir, "libx.so.1.2", "libx.so", ["1", "2"]);
    TwoAbisRise(lib, ["libx.so.1"], ["libx.so.1.2"], isDir, ["1"], ["1", "2"]);
  }

  lemma LibxTwoTokens()
    ensures ReadsBack("libx.so.1.2", "libx.so", ["1", "2"])
  {
    assert ["1", "2"][1..] == ["2"] && ["2"][1..] == [];
    assert Suffix(["2"]) == ".2" + "";
    assert Suffix(["1", "2"]) == "." + "1" + Suffix(["2"]);
    assert "libx.so" + Suffix(["1", "2"]) == "libx.so.1.2";
    assert EndsWith("libx.so", SO);
    assert !StartsWithSo(["1", "2"]) && !NamesConfig(["1", "2"]);
    PrintedNameParsesBack("libx.so", ["1", "2"]);
  }

  lemma TwoAbisRise(lib: seq<Element>, first: Path, second: Path, isDir: DirTest, a: Abi, b: Abi)
    requires AbiAt(lib, first, isDir) == [a] && AbiAt(lib, second, isDir) == [b] && a != [] && a < b
    ensures Longest([], AbisAlong(lib, [first, second], isDir)) == b
  {
    var pick := p => AbiAt(lib, p, isDir);
    assert [first, second][1..] == [second] && [second][1..] == [];
    assert Collect([second], pick) == [b] + [];
    assert Collect([first, second], pick) == [a] + [b];
    assert ([a] + [b])[1..] == [b] && [b][1..] == [];
    assert Longest(a, [b]) == b;
  }

  lemma VersionedChain()
    ensures WellFormed(VersionedTree())
    ensures Chain(VersionedTree(), ["/", "libx.so.1"]) == Some([["libx.so.1"], ["libx.so.1.2"]])
  {
    var t := VersionedTree();
    assert ["libx.so.1"] in Links(t);
    var n := |Links(t)| - 1;
    assert [] + ["libx.so.1"] == ["libx.so.1"] && [] + ["libx.so.1.2"] == ["libx.so.1.2"];
    PlainElement(t, [], "libx.so.1.2", n);
    SymlinkElement(t, [], "libx.so.1", n);
    assert ["/", "libx.so.1"][1..] == ["libx.so.1"];
    SkipsSlash(t, [], ["/", "libx.so.1"], n + 1);
    assert [["libx.so.1"]] + [] == [["libx.so.1"]];
    assert [["libx.so.1"]] + [["libx.so.1.2"]] == [["libx.so.1"], ["libx.so.1.2"]];
  }

  /** A tree where it is not: a folder link that carries the name of a later ABI of the same library. */
  function MisleadingTree(): Tree {
    map[[] := Dir(0, 0, 0), ["d"] := Dir(0, 0, 0), ["libx.so.2"] := Symlink(["d"])]
  }

  /** Asked for /libx.so.2/libx.so.1 there, the loop answers 2. */
  lemma OwnAbiCanBeLost()
    ensures var t, lib, isDir := MisleadingTree(), ["/", "libx.so.2", "libx.so.1"], (els: seq<Element>) => false;
            && WellFormed(t) && IsLib(lib, isDir) && AbiOf(Filename(lib)) == ["1"] && Chain(t, lib).Some?
            && Longest([], AbisAlong(lib, Chain(t, lib).value, isDir)) == ["2"]
  {
    var lib, isDir := ["/", "libx.so.2", "libx.so.1"], (els: seq<Element>) => false;
    MisleadingChain();
    LibxName("libx.so.1", "1");
    LibxName("libx.so.2", "2");
    assert Filename(lib) == "libx.so.1";
    ReadAbiAt(lib, ["libx.so.2"], isDir, "libx.so.2", "libx.so", ["2"]);
    ReadAbiAt(lib, ["d", "libx.so.1"], isDir, "libx.so.1", "libx.so", ["1"]);
    TwoAbis(lib, ["libx.so.2"], ["d", "libx.so.1"], isDir, ["2"], ["1"]);
  }

  /** What two paths contribute, the second of which does not extend the first. */
  lemma TwoAbis(lib: seq<Element>, first: Path, second: Path, isDir: DirTest, a: Abi, b: Abi)
    requires AbiAt(lib, first, isDir) == [a] && AbiAt(lib, second, isDir) == [b] && a != [] && !(a < b)
    ensures Longest([], AbisAlong(lib, [first, second], isDir)) == a
  {
    var pick := p => AbiAt(lib, p, isDir);
    assert [first, second][1..] == [second] && [second][1..] == [];
    assert Collect([second], pick) == [b] + [];
    assert Collect([first, second], pick) == [a] + [b];
    assert ([a] + [b])[1..] == [b] && [b][1..] == [];
    assert Longest(a, [b]) == a;
  }

  /** What a path with a name that reads back contributes. */
  lemma ReadAbiAt(lib: seq<Element>, p: Path, isDir: DirTest, name: string, linker: string, abi: Abi)
    requires ReadsBack(name, linker, abi) && Filename(Elements(p)) == name && !isDir(Elements(p))
    requires GetLinkerName(Filename(lib)) == Ok(linker)
    ensures AbiAt(lib, p, isDir) == [abi]
  {
  }

  lemma LibxName(name: string, token: string)
    requires name == "libx.so." + token && token in {"1", "2"}
    ensures ReadsBack(name, "libx.so", [token])
  {
    assert [token][1..] == [];
    assert Suffix([token]) == "." + token + "";
    assert "libx.so" + Suffix([token]) == name;
    assert EndsWith("libx.so", SO);
    assert !StartsWithSo([token]) && !NamesConfig([token]);
    PrintedNameParsesBack("libx.so", [token]);
  }

  /** Through a link to a folder beside it, and on to a name there. */
  lemma ThroughFolderLink(t: Tree, link: Element, folder: Element, name: Element)
    requires Plain(link) && Plain(folder) && Plain(name)
    requires IsLink(t, [link]) && t[[link]].target == [folder] && !IsAbsolute([folder])
    requires !IsLink(t, [folder]) && !IsLink(t, [folder, name])
    ensures Resolve(t, [], ["/", link, name]) == Some(Resolved([folder, name], [[link]]))
  {
    assert [link] in Links(t);
    var n := |Links(t)| - 1;
    assert [] + [link] == [link] && [] + [folder] == [folder] && [folder] + [name] == [folder, name];
    PlainElement(t, [], folder, n);
    SymlinkElement(t, [], link, n);
    PlainElement(t, [folder], name, n + 1);
    AppendComposes(t, [], [link], [name], n + 1);
    assert [[link]] + [] == [[link]];
    SkipsSlash(t, [], ["/", link, name], n + 1);
    assert ["/", link, name][1..] == [link] + [name];
  }

  lemma MisleadingChain()
    ensures WellFormed(MisleadingTree())
    ensures Chain(MisleadingTree(), ["/", "libx.so.2", "libx.so.1"]) == Some([["libx.so.2"], ["d", "libx.so.1"]])
  {
    ThroughFolderLink(MisleadingTree(), "libx.so.2", "d", "libx.so.1");
    assert [["libx.so.2"]] + [["d", "libx.so.1"]] == [["libx.so.2"], ["d", "libx.so.1"]];
  }

  lemma SkipsSlash(t: Tree, cur: Path, els: seq<Element>, depth: nat)
    requires IsAbsolute(els)
    ensures Append(t, cur, els, depth) == Append(t, cur, els[1..], depth)
  {
  }
}
