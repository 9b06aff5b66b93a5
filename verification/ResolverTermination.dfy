/**
 * When does the resolver return?
 *
 * The recursion in src/utility/filesystem.cpp has no visible bound.  A call that
 * returns never has two copies of one link open at once, so the number of symlinks
 * in the tree bounds its depth; a call that does not return meets some link again
 * while that link's own target is still being resolved.
 */
module ResolverTermination {
  import opened Wrappers
  import opened FileTree
  import opened Resolver

  function ResolveTarget(t: Tree, p: Path, depth: nat): Option<Resolved>
    requires IsLink(t, p)
  {
    Append(t, LinkBase(t, p), t[p].target, depth)
  }

  /** The call returns with bound `depth` and with no smaller one. */
  ghost predicate NeedsExactly(t: Tree, cur: Path, els: seq<Element>, depth: nat) {
    && Append(t, cur, els, depth).Some?
    && (depth > 0 ==> Append(t, cur, els, depth - 1).None?)
  }

  lemma {:induction false} ExactDepth(t: Tree, cur: Path, els: seq<Element>, depth: nat) returns (exact: nat)
    requires Append(t, cur, els, depth).Some?
    ensures exact <= depth && NeedsExactly(t, cur, els, exact)
    decreases depth
  {
    if depth > 0 && Append(t, cur, els, depth - 1).Some? {
      exact := ExactDepth(t, cur, els, depth - 1);
    } else {
      exact := depth;
    }
  }

  lemma ExactDepthUnique(t: Tree, cur: Path, els: seq<Element>, d: nat, e: nat)
    requires NeedsExactly(t, cur, els, d) && NeedsExactly(t, cur, els, e)
    ensures d == e
  {
    if d < e {
      AppendMonotonic(t, cur, els, d, e - 1);
    } else if e < d {
      AppendMonotonic(t, cur, els, e, d - 1);
    }
  }

  /** `ps[i]` is a link whose target needs depth exactly i. */
  ghost predicate Ladder(t: Tree, ps: seq<Path>) {
    forall i :: 0 <= i < |ps| ==> IsLink(t, ps[i]) && NeedsExactly(t, LinkBase(t, ps[i]), t[ps[i]].target, i)
  }

  /** A call that needs depth d opens d links whose targets need depths 0, ..., d - 1. */
  lemma {:induction false} BuildLadder(t: Tree, cur: Path, els: seq<Element>, depth: nat) returns (ps: seq<Path>)
    requires NeedsExactly(t, cur, els, depth)
    ensures |ps| == depth && Ladder(t, ps)
    decreases depth, |els|
  {
    if depth == 0 {
      return [];
    }
    var e, rest := els[0], els[1..];
    if e == "/" || e == "." {
      ps := BuildLadder(t, cur, rest, depth);
    } else if e == ".." {
      ps := BuildLadder(t, Parent(cur), rest, depth);
    } else if IsLink(t, cur + [e]) {
      var p := cur + [e];
      if depth == 1 || ResolveTarget(t, p, depth - 2).None? {
        var below := BuildLadder(t, LinkBase(t, p), t[p].target, depth - 1);
        ps := below + [p];
      } else {
        AppendMonotonic(t, LinkBase(t, p), t[p].target, depth - 2, depth - 1);
        ps := BuildLadder(t, ResolveTarget(t, p, depth - 1).value.path, rest, depth);
      }
    } else {
      ps := BuildLadder(t, cur + [e], rest, depth);
    }
  }

  lemma {:induction false} DistinctFit(ps: seq<Path>, s: set<Path>)
    requires forall i :: 0 <= i < |ps| ==> ps[i] in s
    requires forall i, j :: 0 <= i < j < |ps| ==> ps[i] != ps[j]
    ensures |ps| <= |s|
    decreases |ps|
  {
    if ps != [] {
      var last := ps[|ps| - 1];
      DistinctFit(ps[..|ps| - 1], s - {last});
      assert |s - {last}| == |s| - 1;
    }
  }

  /** If any depth is enough, then a depth equal to the number of symlinks gives the same answer. */
  lemma LinkCountIsEnough(t: Tree, cur: Path, els: seq<Element>, depth: nat)
    requires Append(t, cur, els, depth).Some?
    ensures Resolve(t, cur, els) == Append(t, cur, els, depth)
    ensures Append(t, cur, els, |set p | p in t && t[p].Symlink?|) == Append(t, cur, els, depth)
  {
    assert (set p | p in t && t[p].Symlink?) == Links(t);
    var exact := ExactDepth(t, cur, els, depth);
    var ps := BuildLadder(t, cur, els, exact);
    forall i, j | 0 <= i < j < |ps| ensures ps[i] != ps[j] {
      if ps[i] == ps[j] {
        ExactDepthUnique(t, LinkBase(t, ps[i]), t[ps[i]].target, i, j);
      }
    }
    DistinctFit(ps, Links(t));
    AppendMonotonic(t, cur, els, exact, |Links(t)|);
    AppendMonotonic(t, cur, els, exact, depth);
  }

  // ----- Reentrant links -----

  /** Walking `els` from `cur` meets link `p` itself (not inside the target of another link). */
  ghost predicate Meets(t: Tree, cur: Path, els: seq<Element>, p: Path)
    decreases |els|
  {
    els != [] &&
    var e, rest := els[0], els[1..];
    if e == "/" || e == "." then Meets(t, cur, rest, p)
    else if e == ".." then Meets(t, Parent(cur), rest, p)
    else if IsLink(t, cur + [e]) then
      || p == cur + [e]
      || var link := Resolve(t, LinkBase(t, cur + [e]), t[cur + [e]].target);
         link.Some? && Meets(t, link.value.path, rest, p)
    else Meets(t, cur + [e], rest, p)
  }

  /** A stack of open links: the first is met by the call, each next one in the target of the one before. */
  ghost predicate OpenStack(t: Tree, cur: Path, els: seq<Element>, ps: seq<Path>) {
    && (forall i :: 0 <= i < |ps| ==> IsLink(t, ps[i]))
    && (ps != [] ==> Meets(t, cur, els, ps[0]))
    && (forall i :: 0 < i < |ps| ==> Meets(t, LinkBase(t, ps[i - 1]), t[ps[i - 1]].target, ps[i]))
  }

  /** The call reaches a state in which the link on top of the stack of open links is already open below. */
  ghost predicate Reenters(t: Tree, cur: Path, els: seq<Element>) {
    exists ps: seq<Path> :: OpenStack(t, cur, els, ps) && Repeats(ps)
  }

  ghost predicate Repeats(ps: seq<Path>) {
    ps != [] && ps[|ps| - 1] in ps[..|ps| - 1]
  }

  /** The target of a met link needs strictly less depth than the call. */
  lemma {:induction false} MetNeedsLess(t: Tree, cur: Path, els: seq<Element>, p: Path, depth: nat)
    requires Meets(t, cur, els, p) && Append(t, cur, els, depth).Some?
    ensures depth > 0 && IsLink(t, p) && ResolveTarget(t, p, depth - 1).Some?
    decreases |els|
  {
    var e, rest := els[0], els[1..];
    if e == "/" || e == "." {
      MetNeedsLess(t, cur, rest, p, depth);
    } else if e == ".." {
      MetNeedsLess(t, Parent(cur), rest, p, depth);
    } else if IsLink(t, cur + [e]) {
      var l := cur + [e];
      if p != l {
        LinkCountIsEnough(t, LinkBase(t, l), t[l].target, depth - 1);
        MetNeedsLess(t, Resolve(t, LinkBase(t, l), t[l].target).value.path, rest, p, depth);
      }
    } else {
      MetNeedsLess(t, cur + [e], rest, p, depth);
    }
  }

  lemma {:induction false} StackNeedsLess(t: Tree, cur: Path, els: seq<Element>, ps: seq<Path>, i: nat, depth: nat)
    requires OpenStack(t, cur, els, ps) && i < |ps| && Append(t, cur, els, depth).Some?
    ensures depth > i && ResolveTarget(t, ps[i], depth - 1 - i).Some?
    decreases i
  {
    if i == 0 {
      MetNeedsLess(t, cur, els, ps[0], depth);
    } else {
      StackNeedsLess(t, cur, els, ps, i - 1, depth);
      MetNeedsLess(t, LinkBase(t, ps[i - 1]), t[ps[i - 1]].target, ps[i], depth - i);
    }
  }

  /** What lies above link i on a stack of open links is a stack for the target of that link. */
  lemma StackAbove(t: Tree, cur: Path, els: seq<Element>, ps: seq<Path>, i: nat)
    requires OpenStack(t, cur, els, ps) && i < |ps|
    ensures OpenStack(t, LinkBase(t, ps[i]), t[ps[i]].target, ps[i + 1..])
  {
    var tail := ps[i + 1..];
    forall k | 0 < k < |tail| ensures Meets(t, LinkBase(t, tail[k - 1]), t[tail[k - 1]].target, tail[k]) {
      assert tail[k] == ps[i + 1 + k] && tail[k - 1] == ps[i + k];
    }
  }

  /** A link whose target opens that link again never resolves. */
  lemma OpenedAgain(t: Tree, p: Path, ps: seq<Path>, depth: nat)
    requires IsLink(t, p) && ps != [] && ps[|ps| - 1] == p && OpenStack(t, LinkBase(t, p), t[p].target, ps)
    ensures ResolveTarget(t, p, depth).None?
  {
    var base, target := LinkBase(t, p), t[p].target;
    if ResolveTarget(t, p, depth).Some? {
      var exact := ExactDepth(t, base, target, depth);
      StackNeedsLess(t, base, target, ps, |ps| - 1, exact);
      AppendMonotonic(t, base, target, exact - |ps|, exact - 1);
    }
  }

  /** A call that meets an open link again does not return, whatever the bound. */
  lemma ReentryDiverges(t: Tree, cur: Path, els: seq<Element>, ps: seq<Path>, depth: nat)
    requires OpenStack(t, cur, els, ps) && Repeats(ps)
    ensures Append(t, cur, els, depth).None?
  {
    if Append(t, cur, els, depth).Some? {
      var j := |ps| - 1;
      var i :| 0 <= i < j && ps[i] == ps[j];
      StackNeedsLess(t, cur, els, ps, i, depth);
      StackAbove(t, cur, els, ps, i);
      assert ps[i + 1..][j - i - 1] == ps[j];
      OpenedAgain(t, ps[i], ps[i + 1..], depth - 1 - i);
    }
  }

  /** A call that does not return meets a link whose target does not resolve either. */
  lemma {:induction false} DivergenceMeets(t: Tree, cur: Path, els: seq<Element>, depth: nat) returns (p: Path)
    requires depth > |Links(t)| && Append(t, cur, els, depth).None?
    ensures Meets(t, cur, els, p) && IsLink(t, p) && ResolveTarget(t, p, depth - 1).None?
    decreases |els|
  {
    var e, rest := els[0], els[1..];
    if e == "/" || e == "." {
      p := DivergenceMeets(t, cur, rest, depth);
    } else if e == ".." {
      p := DivergenceMeets(t, Parent(cur), rest, depth);
    } else if IsLink(t, cur + [e]) {
      var l := cur + [e];
      var link := ResolveTarget(t, l, depth - 1);
      if link.None? {
        p := l;
      } else {
        LinkCountIsEnough(t, LinkBase(t, l), t[l].target, depth - 1);
        p := DivergenceMeets(t, link.value.path, rest, depth);
      }
    } else {
      p := DivergenceMeets(t, cur + [e], rest, depth);
    }
  }

  lemma StillDiverges(t: Tree, cur: Path, els: seq<Element>, depth: nat, more: nat)
    requires depth >= |Links(t)| && Append(t, cur, els, depth).None?
    ensures Append(t, cur, els, more).None?
  {
    if Append(t, cur, els, more).Some? {
      LinkCountIsEnough(t, cur, els, more);
      AppendMonotonic(t, cur, els, |Links(t)|, depth);
    }
  }

  /** A call that does not return has stacks of open links of every height. */
  lemma {:induction false} DivergenceStack(t: Tree, cur: Path, els: seq<Element>, height: nat) returns (ps: seq<Path>)
    requires Resolve(t, cur, els).None?
    ensures |ps| == height && OpenStack(t, cur, els, ps)
    decreases height
  {
    if height == 0 {
      return [];
    }
    var depth := |Links(t)| + 1;
    StillDiverges(t, cur, els, |Links(t)|, depth);
    var p := DivergenceMeets(t, cur, els, depth);
    var above := DivergenceStack(t, LinkBase(t, p), t[p].target, height - 1);
    ps := [p] + above;
    forall k | 0 < k < |ps| ensures Meets(t, LinkBase(t, ps[k - 1]), t[ps[k - 1]].target, ps[k]) {
      assert ps[k] == above[k - 1];
      if k > 1 {
        assert ps[k - 1] == above[k - 2];
      }
    }
  }

  /** More paths than the set holds: some initial part repeats its last path. */
  lemma Pigeonhole(ps: seq<Path>, s: set<Path>) returns (n: nat)
    requires forall i :: 0 <= i < |ps| ==> ps[i] in s
    requires |ps| > |s|
    ensures n <= |ps| && Repeats(ps[..n])
  {
    if forall i, j :: 0 <= i < j < |ps| ==> ps[i] != ps[j] {
      DistinctFit(ps, s);
      assert false;
    } else {
      var i, j :| 0 <= i < j < |ps| && ps[i] == ps[j];
      n := j + 1;
      assert ps[..n][|ps[..n]| - 1] == ps[j];
      assert ps[..n][..j][i] == ps[i];
    }
  }

  ghost predicate NeverReturns(t: Tree, cur: Path, els: seq<Element>) {
    forall depth: nat :: Append(t, cur, els, depth).None?
  }

  /** The resolver fails to return exactly when some link is met while its own target is still open. */
  lemma DivergesIffReenters(t: Tree, cur: Path, els: seq<Element>)
    ensures NeverReturns(t, cur, els) <==> Reenters(t, cur, els)
  {
    if Reenters(t, cur, els) {
      var ps :| OpenStack(t, cur, els, ps) && Repeats(ps);
      forall depth: nat ensures Append(t, cur, els, depth).None? {
        ReentryDiverges(t, cur, els, ps, depth);
      }
    }
    if NeverReturns(t, cur, els) {
      assert Resolve(t, cur, els).None?;
      var ps := DivergenceStack(t, cur, els, |Links(t)| + 1);
      var n := Pigeonhole(ps, Links(t));
      assert OpenStack(t, cur, els, ps[..n]);
    }
  }

  /** The shortest such call: through a symlink to itself. */
  lemma SelfLinkDiverges(t: Tree, cur: Path, e: Element, rest: seq<Element>)
    requires Plain(e) && IsLink(t, cur + [e]) && t[cur + [e]].target == [e]
    ensures NeverReturns(t, cur, [e] + rest)
  {
    forall depth: nat ensures Append(t, cur, [e] + rest, depth).None? {
      SelfLinkGoesOn(t, cur, e, rest, depth);
    }
  }

  lemma {:induction false} SelfLinkGoesOn(t: Tree, cur: Path, e: Element, rest: seq<Element>, depth: nat)
    requires Plain(e) && IsLink(t, cur + [e]) && t[cur + [e]].target == [e]
    ensures Append(t, cur, [e] + rest, depth).None?
    decreases depth
  {
    assert Parent(cur + [e]) == cur;
    if depth > 0 {
      SelfLinkGoesOn(t, cur, e, [], depth - 1);
      assert [e] + [] == [e];
    }
  }

  /** For instance, asking for /a where /a links to "a". */
  lemma SelfLinkExample()
    ensures var t: Tree := map[[] := Dir(0, 0, 0), ["a"] := Symlink(["a"])];
            WellFormed(t) && NeverReturns(t, [], ["/", "a"])
  {
    var t: Tree := map[[] := Dir(0, 0, 0), ["a"] := Symlink(["a"])];
    assert [] + ["a"] == ["a"];
    forall depth: nat ensures Append(t, [], ["/", "a"], depth).None? {
      SelfLinkGoesOn(t, [], "a", [], depth);
      assert ["/", "a"][1..] == ["a"] + [];
    }
  }
}
