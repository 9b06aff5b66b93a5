/**
 * Two independent references for the resolver: a flat worklist machine that splices
 * link targets into the remaining work, and the kernel's strict walk.  Then the
 * resolver seen from the host, where the root filesystem is a directory like others.
 */
module ResolverReference {
  import opened Wrappers
  import opened FileTree
  import opened Resolver
  import opened ResolverTermination

  // ----- The flat worklist machine -----

  /** No recursion into link targets: a link's target is put in front of the remaining work. */
  function Flat(t: Tree, cur: Path, work: seq<Element>, steps: nat): Option<Resolved>
    decreases steps
  {
    if work == [] then Some(Resolved(cur, []))
    else if steps == 0 then None
    else
      var e, rest := work[0], work[1..];
      if e == "/" || e == "." then Flat(t, cur, rest, steps - 1)
      else if e == ".." then Flat(t, Parent(cur), rest, steps - 1)
      else if IsLink(t, cur + [e]) then
        match Flat(t, LinkBase(t, cur + [e]), t[cur + [e]].target + rest, steps - 1)
        case None => None
        case Some(r) => Some(Resolved(r.path, [cur + [e]] + r.log))
      else Flat(t, cur + [e], rest, steps - 1)
  }

  /** The machine at a symlink. */
  lemma FlatSymlink(t: Tree, cur: Path, e: Element, rest: seq<Element>, steps: nat)
    requires e !in {"/", ".", ".."} && cur + [e] in t && t[cur + [e]].Symlink?
    ensures var g := t[cur + [e]].target;
            var r := Flat(t, if g != [] && g[0] == "/" then [] else cur, g + rest, steps);
            Flat(t, cur, [e] + rest, steps + 1) ==
            if r.None? then None else Some(Resolved(r.value.path, [cur + [e]] + r.value.log))
  {
    assert ([e] + rest)[0] == e && ([e] + rest)[1..] == rest && Parent(cur + [e]) == cur;
  }

  /** The machine runs through `els` the way the recursive resolver does, and goes on with `rest`. */
  lemma {:induction false} FlatFollows(t: Tree, cur: Path, els: seq<Element>, depth: nat, rest: seq<Element>, k: nat)
    returns (steps: nat)
    requires Append(t, cur, els, depth).Some?
    requires Flat(t, Append(t, cur, els, depth).value.path, rest, k).Some?
    ensures var a := Append(t, cur, els, depth).value;
            var b := Flat(t, a.path, rest, k).value;
            Flat(t, cur, els + rest, steps) == Some(Resolved(b.path, a.log + b.log))
    decreases depth, |els|
  {
    var a := Append(t, cur, els, depth).value;
    var b := Flat(t, a.path, rest, k).value;
    if els == [] {
      assert els + rest == rest;
      assert a.log + b.log == b.log;
      steps := k;
    } else {
      var e, tail := els[0], els[1..];
      assert (els + rest)[0] == e && (els + rest)[1..] == tail + rest;
      if e == "/" || e == "." {
        var n := FlatFollows(t, cur, tail, depth, rest, k);
        steps := n + 1;
      } else if e == ".." {
        var n := FlatFollows(t, Parent(cur), tail, depth, rest, k);
        steps := n + 1;
      } else if IsLink(t, cur + [e]) {
        var p := cur + [e];
        var link := Append(t, LinkBase(t, p), t[p].target, depth - 1).value;
        var after := Append(t, link.path, tail, depth).value;
        var m := FlatFollows(t, link.path, tail, depth, rest, k);
        var n := FlatFollows(t, LinkBase(t, p), t[p].target, depth - 1, tail + rest, m);
        assert [p] + (link.log + (after.log + b.log)) == ([p] + link.log + after.log) + b.log;
        steps := n + 1;
      } else {
        var n := FlatFollows(t, cur + [e], tail, depth, rest, k);
        steps := n + 1;
      }
    }
  }

  /** One unfolding at a symlink: its target, then the rest. */
  lemma AppendAtLink(t: Tree, cur: Path, work: seq<Element>, depth: nat)
    requires work != [] && Plain(work[0]) && IsLink(t, cur + [work[0]]) && depth > 0
    requires Target(t, cur + [work[0]], depth).Some?
    requires Append(t, Target(t, cur + [work[0]], depth).value.path, work[1..], depth).Some?
    ensures var p := cur + [work[0]];
            var link := Target(t, p, depth).value;
            var tail := Append(t, link.path, work[1..], depth).value;
            Append(t, cur, work, depth) == Some(Resolved(tail.path, [p] + link.log + tail.log))
  {
  }

  lemma ResolvedInTwo(t: Tree, cur: Path, p: seq<Element>, q: seq<Element>, depth: nat)
    returns (first: Resolved, second: Resolved)
    requires Append(t, cur, p + q, depth).Some?
    ensures Append(t, cur, p, depth) == Some(first) && Append(t, first.path, q, depth) == Some(second)
    ensures Append(t, cur, p + q, depth) == Some(Resolved(second.path, first.log + second.log))
  {
    AppendComposes(t, cur, p, q, depth);
    first := Append(t, cur, p, depth).value;
    second := Append(t, first.path, q, depth).value;
  }

  /** Where the link's target and the rest are resolved in one go, so they are one after the other. */
  lemma LinkFollowed(t: Tree, cur: Path, work: seq<Element>, steps: nat, r: Resolved)
    requires work != [] && Plain(work[0]) && IsLink(t, cur + [work[0]]) && steps > 0
    requires var p := cur + [work[0]];
             Append(t, LinkBase(t, p), t[p].target + work[1..], steps - 1) == Some(r)
    ensures Append(t, cur, work, steps) == Some(Resolved(r.path, [cur + [work[0]]] + r.log))
  {
    var p := cur + [work[0]];
    var link, tail := ResolvedInTwo(t, LinkBase(t, p), t[p].target, work[1..], steps - 1);
    AppendMonotonic(t, link.path, work[1..], steps - 1, steps);
    AppendAtLink(t, cur, work, steps);
    assert [p] + (link.log + tail.log) == [p] + link.log + tail.log;
  }

  /** Whatever the machine returns, the recursive resolver returns too. */
  lemma {:induction false} AppendFollows(t: Tree, cur: Path, work: seq<Element>, steps: nat)
    requires Flat(t, cur, work, steps).Some?
    ensures Append(t, cur, work, steps) == Flat(t, cur, work, steps)
    decreases steps
  {
    if work != [] {
      var e, rest := work[0], work[1..];
      if e == "/" || e == "." {
        AppendFollows(t, cur, rest, steps - 1);
        AppendMonotonic(t, cur, rest, steps - 1, steps);
      } else if e == ".." {
        AppendFollows(t, Parent(cur), rest, steps - 1);
        AppendMonotonic(t, Parent(cur), rest, steps - 1, steps);
      } else if IsLink(t, cur + [e]) {
        var base, target := LinkBase(t, cur + [e]), t[cur + [e]].target;
        AppendFollows(t, base, target + rest, steps - 1);
        LinkFollowed(t, cur, work, steps, Append(t, base, target + rest, steps - 1).value);
      } else {
        AppendFollows(t, cur + [e], rest, steps - 1);
        AppendMonotonic(t, cur + [e], rest, steps - 1, steps);
      }
    }
  }

  ghost predicate FlatGives(t: Tree, cur: Path, work: seq<Element>, r: Resolved) {
    exists steps: nat :: Flat(t, cur, work, steps) == Some(r)
  }

  /** The resolver and the worklist machine give the same path and the same log, and return on the same inputs. */
  lemma ResolverRefinesFlat(t: Tree, cur: Path, els: seq<Element>, r: Resolved)
    ensures Resolve(t, cur, els) == Some(r) <==> FlatGives(t, cur, els, r)
  {
    if Resolve(t, cur, els) == Some(r) {
      assert Flat(t, r.path, [], 0) == Some(Resolved(r.path, []));
      var steps := FlatFollows(t, cur, els, |Links(t)|, [], 0);
      assert els + [] == els && r.log + [] == r.log;
      assert Flat(t, cur, els, steps) == Some(r);
    }
    if FlatGives(t, cur, els, r) {
      var steps: nat :| Flat(t, cur, els, steps) == Some(r);
      AppendFollows(t, cur, els, steps);
      LinkCountIsEnough(t, cur, els, steps);
    }
  }

  // ----- The strict walk -----

  /**
   * Where the strict walk gets anywhere, the resolver gets to the same path, with a log no longer than
   * the links followed.
   */
  lemma {:induction false} StrictWalkAgrees(t: Tree, cur: Path, work: seq<Element>, links: nat)
    requires !KernelWalk(t, cur, work, links).Fails?
    ensures Resolve(t, cur, work).Some?
    ensures Resolve(t, cur, work).value.path == KernelWalk(t, cur, work, links).path
    ensures |Resolve(t, cur, work).value.log| <= links
    decreases links, |work|
  {
    if work != [] {
      var e, rest := work[0], work[1..];
      if e == "/" || e == "." {
        StrictWalkAgrees(t, cur, rest, links);
      } else if e == ".." {
        StrictWalkAgrees(t, Parent(cur), rest, links);
      } else if cur + [e] !in t {
        assert Append(t, cur + [e], rest, |Links(t)|) == Some(Resolved(cur + [e], []));
      } else if IsLink(t, cur + [e]) {
        var p := cur + [e];
        var base, target := LinkBase(t, p), t[p].target;
        StrictWalkAgrees(t, base, target + rest, links - 1);
        var n := |Links(t)|;
        AppendComposes(t, base, target, rest, n);
        AppendMonotonic(t, Append(t, base, target, n).value.path, rest, n, n + 1);
        LinkCountIsEnough(t, cur, work, n + 1);
      } else {
        StrictWalkAgrees(t, cur + [e], rest, links);
      }
    }
  }

  /** The code is more lenient than the walk: ".." cancels a name that is not a directory, which the walk refuses. */
  lemma DotDotIsLexical(t: Tree, cur: Path, e: Element, rest: seq<Element>, links: nat)
    requires Plain(e) && !IsLink(t, cur + [e])
    ensures Resolve(t, cur, [e, ".."] + rest) == Resolve(t, cur, rest)
    ensures !IsDir(t, cur + [e]) ==> KernelWalk(t, cur, [e, ".."] + rest, links).Fails?
  {
    var work := [e, ".."] + rest;
    assert work[1..] == [".."] + rest;
    assert work[1..][1..] == rest;
    assert Parent(cur + [e]) == cur;
    assert Append(t, cur + [e], [".."] + rest, |Links(t)|) == Append(t, cur, rest, |Links(t)|) by {
      assert ([".."] + rest)[1..] == rest;
    }
  }

  // ----- The root filesystem as a directory of the host -----

  /** What the host has under directory `root`. */
  function Under(host: Tree, root: Path): Tree {
    var inside := set q | q in host && root <= q :: q[|root|..];
    map p | p in inside && root + p in host :: host[root + p]
  }

  lemma UnderLookup(host: Tree, root: Path, p: Path)
    ensures p in Under(host, root) <==> root + p in host
    ensures p in Under(host, root) ==> Under(host, root)[p] == host[root + p]
  {
    if root + p in host {
      assert root <= root + p;
      assert (root + p)[|root|..] == p;
    }
  }

  lemma CanonicalUnder(host: Tree, root: Path, p: Path)
    requires Canonical(host, root) && Canonical(Under(host, root), p)
    ensures Canonical(host, root + p)
  {
    var q := root + p;
    forall i | 0 <= i <= |q| ensures !IsLink(host, q[..i]) {
      if i <= |root| {
        assert q[..i] == root[..i];
      } else {
        assert q[..i] == root + p[..i - |root|];
        UnderLookup(host, root, p[..i - |root|]);
      }
    }
  }

  /** `isSymlink`: lstat follows every element but the last; a refused lookup answers no as well. */
  predicate LstatIsLink(host: Tree, canSearch: Path -> bool, p: Path)
    requires p != []
  {
    && !Refused(host, canSearch, [], Parent(p), MAX_LINKS)
    && match KernelWalk(host, [], Parent(p), MAX_LINKS)
       case Found(d) => IsDir(host, d) && canSearch(d) && IsLink(host, d + [p[|p| - 1]])
       case _ => false
  }

  /** Where the root filesystem lies: what its path leads to, if anything. */
  function RootOf(host: Tree, rootfsDir: seq<Element>): Walk {
    KernelWalk(host, [], rootfsDir, MAX_LINKS)
  }

  /** The root filesystem as a caller with these permissions sees it. */
  function RootFs(host: Tree, canSearch: Path -> bool, rootfsDir: seq<Element>): Tree {
    if Refused(host, canSearch, [], rootfsDir, MAX_LINKS) || !RootOf(host, rootfsDir).Found? then map[]
    else Under(Visible(host, canSearch), RootOf(host, rootfsDir).path)
  }

  /** A look at what lies behind a folder that may be reached through symlinks, with the links that leaves. */
  lemma LookBehind(host: Tree, canSearch: Path -> bool, rootfsDir: seq<Element>, rest: Path) returns (left: nat)
    requires WellFormed(host) && RootOf(host, rootfsDir).Found?
    requires Canonical(Visible(host, canSearch), RootOf(host, rootfsDir).path + rest)
    ensures var p := RootOf(host, rootfsDir).path + rest;
            && KernelWalk(host, [], rootfsDir + rest, MAX_LINKS) ==
               KernelWalk(host, RootOf(host, rootfsDir).path, rest, left)
            && (Refused(host, canSearch, [], rootfsDir + rest, MAX_LINKS) <==>
                Refused(host, canSearch, [], rootfsDir, MAX_LINKS) || !Reaches(host, canSearch, p))
            && (Reaches(host, canSearch, p) ==>
                  && Canonical(host, p)
                  && KernelWalk(host, [], rootfsDir + rest, MAX_LINKS) ==
                     if p in host then Found(p) else if IsDir(host, Parent(p)) then Vacant(p) else Fails)
  {
    var d := RootOf(host, rootfsDir).path;
    left := WalkSplits(host, canSearch, [], rootfsDir, rest, MAX_LINKS);
    CanonicalRoot(host);
    FoundIsCanonical(host, canSearch, [], rootfsDir, MAX_LINKS);
    if !Refused(host, canSearch, [], rootfsDir, MAX_LINKS) {
      RefusedCanonical(host, canSearch, d, rest, left);
    }
    if Reaches(host, canSearch, d + rest) {
      ReachedIsCanonical(host, canSearch, d + rest);
      WalkCanonical(host, d, rest, left);
    }
  }

  /** What is canonical in the root filesystem as the caller sees it is canonical in all the caller sees. */
  lemma SeenIsCanonical(host: Tree, canSearch: Path -> bool, rootfsDir: seq<Element>, p: Path)
    requires WellFormed(host) && RootOf(host, rootfsDir).Found?
    requires !Refused(host, canSearch, [], rootfsDir, MAX_LINKS)
    requires Canonical(RootFs(host, canSearch, rootfsDir), p)
    ensures Canonical(Visible(host, canSearch), RootOf(host, rootfsDir).path + p)
  {
    CanonicalRoot(host);
    FoundIsCanonical(host, canSearch, [], rootfsDir, MAX_LINKS);
    VisibleIsCanonical(host, canSearch, RootOf(host, rootfsDir).path);
    CanonicalUnder(Visible(host, canSearch), RootOf(host, rootfsDir).path, p);
  }

  /** From a resolved directory, lstat on the host answers what the tree under the root says. */
  lemma LstatIsLookup(host: Tree, canSearch: Path -> bool, rootfsDir: seq<Element>, cur: Path, e: Element)
    requires WellFormed(host)
    requires Canonical(RootFs(host, canSearch, rootfsDir), cur) && Plain(e)
    ensures LstatIsLink(host, canSearch, rootfsDir + cur + [e]) <==>
            IsLink(RootFs(host, canSearch, rootfsDir), cur + [e])
  {
    var path := rootfsDir + cur + [e];
    assert Parent(path) == rootfsDir + cur;
    if Refused(host, canSearch, [], rootfsDir, MAX_LINKS) || !RootOf(host, rootfsDir).Found? {
      NothingBehind(host, canSearch, rootfsDir, cur);
    } else {
      var d := RootOf(host, rootfsDir).path + cur;
      SeenIsCanonical(host, canSearch, rootfsDir, cur);
      var left := LookBehind(host, canSearch, rootfsDir, cur);
      UnderLookup(Visible(host, canSearch), RootOf(host, rootfsDir).path, cur + [e]);
      assert RootOf(host, rootfsDir).path + (cur + [e]) == d + [e];
      LinkIsSeen(host, canSearch, d, e);
    }
  }

  /** Behind a path that is refused, or leads nowhere, nothing is found. */
  lemma NothingBehind(host: Tree, canSearch: Path -> bool, rootfsDir: seq<Element>, rest: seq<Element>)
    requires Refused(host, canSearch, [], rootfsDir, MAX_LINKS) || !RootOf(host, rootfsDir).Found?
    ensures Refused(host, canSearch, [], rootfsDir + rest, MAX_LINKS) ||
            !KernelWalk(host, [], rootfsDir + rest, MAX_LINKS).Found?
  {
    if KernelWalk(host, [], rootfsDir + rest, MAX_LINKS).Found? {
      FirstPartIsFound(host, [], rootfsDir, rest, MAX_LINKS);
      var left := WalkSplits(host, canSearch, [], rootfsDir, rest, MAX_LINKS);
    }
  }

  lemma LinkIsSeen(t: Tree, canSearch: Path -> bool, d: Path, e: Element)
    requires WellFormed(t)
    ensures IsLink(Visible(t, canSearch), d + [e]) <==>
            IsLink(t, d + [e]) && IsDir(t, d) && Reaches(t, canSearch, d) && canSearch(d)
  {
    var p := d + [e];
    assert p[..|d|] == d && Parent(p) == d;
    assert Anchored(t, p);
    assert forall i :: 0 <= i < |d| ==> p[..i] == d[..i];
    if p in t {
      forall i | 0 <= i < |p| ensures IsDir(t, p[..i]) {
        PrefixIsDir(t, p, i);
      }
    }
  }

  /**
   * Confinement: whatever links the root filesystem holds, opening the resolved path on the host
   * below `rootfsDir` follows none of them, so it is nowhere else than below the folder that `rootfsDir`
   * leads to.  Where the caller could not look, a link may have been overlooked; but then looking the
   * resolved path up is refused.
   */
  lemma ResolvedPathStaysUnderRoot(host: Tree, canSearch: Path -> bool, rootfsDir: seq<Element>, path: seq<Element>)
    requires WellFormed(host) && Resolve(RootFs(host, canSearch, rootfsDir), [], path).Some?
    ensures var inside := Resolve(RootFs(host, canSearch, rootfsDir), [], path).value.path;
            var walk := KernelWalk(host, [], rootfsDir + inside, MAX_LINKS);
            var refused := Refused(host, canSearch, [], rootfsDir + inside, MAX_LINKS);
            if RootOf(host, rootfsDir).Found? then
              var p := RootOf(host, rootfsDir).path + inside;
              && (refused <==> Refused(host, canSearch, [], rootfsDir, MAX_LINKS) || !Reaches(host, canSearch, p))
              && (!refused ==>
                    && Canonical(host, p)
                    && walk == if p in host then Found(p) else if IsDir(host, Parent(p)) then Vacant(p) else Fails)
            else refused || !walk.Found?
  {
    var inside := Resolve(RootFs(host, canSearch, rootfsDir), [], path).value.path;
    if Refused(host, canSearch, [], rootfsDir, MAX_LINKS) || !RootOf(host, rootfsDir).Found? {
      NothingBehind(host, canSearch, rootfsDir, inside);
      if RootOf(host, rootfsDir).Found? {
        var left := WalkSplits(host, canSearch, [], rootfsDir, inside, MAX_LINKS);
      }
    } else {
      ResolvedIsSeen(host, canSearch, rootfsDir, path);
      var left := LookBehind(host, canSearch, rootfsDir, inside);
    }
  }

  lemma ResolvedIsSeen(host: Tree, canSearch: Path -> bool, rootfsDir: seq<Element>, path: seq<Element>)
    requires WellFormed(host) && RootOf(host, rootfsDir).Found?
    requires !Refused(host, canSearch, [], rootfsDir, MAX_LINKS)
    requires Resolve(RootFs(host, canSearch, rootfsDir), [], path).Some?
    ensures Canonical(Visible(host, canSearch), RootOf(host, rootfsDir).path
                                                + Resolve(RootFs(host, canSearch, rootfsDir), [], path).value.path)
  {
    var t := RootFs(host, canSearch, rootfsDir);
    var d := RootOf(host, rootfsDir).path;
    CanonicalRoot(host);
    FoundIsCanonical(host, canSearch, [], rootfsDir, MAX_LINKS);
    UnderLookup(Visible(host, canSearch), d, []);
    assert d + [] == d == d[..|d|];
    assert !IsLink(host, d[..|d|]);
    CanonicalRoot(t);
    ResolutionIsCanonical(t, [], path, |Links(t)|);
    SeenIsCanonical(host, canSearch, rootfsDir, Resolve(t, [], path).value.path);
  }
}
