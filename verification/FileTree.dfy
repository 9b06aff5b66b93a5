/**
 * Files as libsarus sees them through lstat, stat and readlink.
 *
 * A path element is the string that iterating a boost path yields: "/" for the
 * root directory, ".", "..", or a name.  A resolved absolute path (`Path`) is
 * the sequence of names below the root, with [] for "/".
 */
module FileTree {
  type Element = string
  type Path = seq<Element>

  datatype Node =
    | Dir(uid: nat, gid: nat, dev: int)
    | File(uid: nat, gid: nat, dev: int)
    | Symlink(target: seq<Element>)

  type Tree = map<Path, Node>

  predicate Plain(e: Element) {
    e != "/" && e != "." && e != ".."
  }

  predicate AllPlain(p: seq<Element>) {
    forall i :: 0 <= i < |p| ==> Plain(p[i])
  }

  /** `is_absolute` of a path given by its elements. */
  predicate IsAbsolute(p: seq<Element>) {
    p != [] && p[0] == "/"
  }

  /** The elements of a resolved path. */
  function Elements(p: Path): seq<Element> {
    ["/"] + p
  }

  /** `filename()`: the last element, or the empty string. */
  function Filename(els: seq<Element>): string {
    if els == [] then "" else els[|els| - 1]
  }

  /** `parent_path()`, with the root as its own parent. */
  function Parent(p: Path): Path {
    if p == [] then p else p[..|p| - 1]
  }

  predicate IsDir(t: Tree, p: Path) {
    p in t && t[p].Dir?
  }

  predicate IsLink(t: Tree, p: Path) {
    p in t && t[p].Symlink?
  }

  /** The root is a directory, and every other node has a plain name and lives in a directory. */
  ghost predicate WellFormed(t: Tree) {
    && IsDir(t, [])
    && forall p :: Anchored(t, p)
  }

  ghost predicate Anchored(t: Tree, p: Path) {
    p in t && p != [] ==> AllPlain(p) && IsDir(t, Parent(p))
  }

  /** Where resolving the target of link `p` starts. */
  function LinkBase(t: Tree, p: Path): Path
    requires IsLink(t, p)
  {
    if IsAbsolute(t[p].target) then [] else Parent(p)
  }

  /** `p` has only plain names and neither it nor any of its prefixes is a symlink. */
  ghost predicate Canonical(t: Tree, p: Path) {
    && AllPlain(p)
    && forall i :: 0 <= i <= |p| ==> !IsLink(t, p[..i])
  }

  /** The symlinks of a tree. */
  function Links(t: Tree): set<Path> {
    set p | p in t && t[p].Symlink?
  }

  lemma CanonicalParent(t: Tree, p: Path)
    requires Canonical(t, p)
    ensures Canonical(t, Parent(p))
  {
    if p != [] {
      forall i | 0 <= i <= |Parent(p)| ensures !IsLink(t, Parent(p)[..i]) {
        assert Parent(p)[..i] == p[..i];
      }
    }
  }

  lemma CanonicalChild(t: Tree, p: Path, e: Element)
    requires Canonical(t, p) && Plain(e) && !IsLink(t, p + [e])
    ensures Canonical(t, p + [e])
  {
    var q := p + [e];
    forall i | 0 <= i <= |q| ensures !IsLink(t, q[..i]) {
      if i == |q| {
        assert q[..i] == q;
      } else {
        assert q[..i] == p[..i];
      }
    }
  }

  lemma CanonicalRoot(t: Tree)
    requires !IsLink(t, [])
    ensures Canonical(t, [])
  {
    var r: Path := [];
    assert forall i :: 0 <= i <= 0 ==> r[..i] == r;
  }

  /** Every proper prefix of a node is a directory. */
  lemma {:induction false} PrefixIsDir(t: Tree, p: Path, i: nat)
    requires WellFormed(t) && p in t && i < |p|
    ensures IsDir(t, p[..i])
    decreases |p|
  {
    assert Anchored(t, p);
    if i < |p| - 1 {
      PrefixIsDir(t, Parent(p), i);
      assert Parent(p)[..i] == p[..i];
    }
  }

  // ----- Pathname resolution as the kernel does it -----

  /** The kernel's limit on symlinks in one resolution. */
  const MAX_LINKS := 40

  datatype Walk =
    | Found(path: Path)
    /** every element but the last exists; `path` could be created */
    | Vacant(path: Path)
    | Fails

  /**
   * The strict walk of section 4.13 (Pathname Resolution) of IEEE Std 1003.1-2017
   * Base Definitions: every intermediate element is an existing directory, and each
   * symlink's target is spliced in front of what remains.  `links` is the number of
   * symlinks that may still be followed.
   */
  function KernelWalk(t: Tree, cur: Path, work: seq<Element>, links: nat): (w: Walk)
    ensures w.Found? ==> w.path in t
    ensures w.Vacant? ==> w.path != [] && w.path !in t && IsDir(t, Parent(w.path)) && Plain(w.path[|w.path| - 1])
    decreases links, |work|
  {
    if work == [] then
      if cur in t then Found(cur) else Fails
    else if !IsDir(t, cur) then
      Fails
    else
      var e, rest := work[0], work[1..];
      if e == "/" || e == "." then KernelWalk(t, cur, rest, links)
      else if e == ".." then KernelWalk(t, Parent(cur), rest, links)
      else if cur + [e] !in t then
        assert Parent(cur + [e]) == cur;
        if rest == [] then Vacant(cur + [e]) else Fails
      else if t[cur + [e]].Symlink? then
        if links == 0 || t[cur + [e]].target == [] then Fails
        else KernelWalk(t, LinkBase(t, cur + [e]), t[cur + [e]].target + rest, links - 1)
      else
        KernelWalk(t, cur + [e], rest, links)
  }

  /** One element of a walk, from an existing folder, that is no symlink. */
  lemma WalkElement(t: Tree, cur: Path, e: Element, rest: seq<Element>, links: nat)
    requires cur in t && t[cur].Dir?
    requires e in {"/", ".", ".."} || (cur + [e] in t ==> !t[cur + [e]].Symlink?)
    ensures KernelWalk(t, cur, [e] + rest, links) ==
            if e == "/" || e == "." then KernelWalk(t, cur, rest, links)
            else if e == ".." then KernelWalk(t, cur[..if |cur| == 0 then 0 else |cur| - 1], rest, links)
            else if cur + [e] in t then KernelWalk(t, cur + [e], rest, links)
            else if rest == [] then Vacant(cur + [e])
            else Fails
  {
    assert ([e] + rest)[0] == e && ([e] + rest)[1..] == rest;
  }

  /** A symlink on a walk: its target comes first, from the root if it starts with "/", or from where it lies. */
  lemma WalkSymlink(t: Tree, cur: Path, e: Element, rest: seq<Element>, links: nat)
    requires cur in t && t[cur].Dir? && e !in {"/", ".", ".."} && cur + [e] in t && t[cur + [e]].Symlink?
    ensures KernelWalk(t, cur, [e] + rest, 0) == Fails
    ensures var g := t[cur + [e]].target;
            KernelWalk(t, cur, [e] + rest, links + 1) ==
            if g == [] then Fails else KernelWalk(t, if g[0] == "/" then [] else cur, g + rest, links)
  {
    assert ([e] + rest)[0] == e && ([e] + rest)[1..] == rest && Parent(cur + [e]) == cur;
  }

  /** A walk ends where it is, and goes nowhere from what is no folder. */
  lemma WalkEnds(t: Tree, cur: Path, work: seq<Element>, links: nat)
    ensures KernelWalk(t, cur, [], links) == if cur in t then Found(cur) else Fails
    ensures work != [] && !(cur in t && t[cur].Dir?) ==> KernelWalk(t, cur, work, links) == Fails
  {
  }

  /** Nothing lives below a path that is not a directory. */
  lemma NothingBelow(t: Tree, p: Path, i: nat)
    requires WellFormed(t) && i < |p| && !IsDir(t, p[..i])
    ensures p !in t && !IsDir(t, Parent(p))
  {
    if p in t {
      PrefixIsDir(t, p, i);
    }
    if Parent(p) in t {
      assert Parent(p)[..i] == p[..i];
      if i < |p| - 1 {
        PrefixIsDir(t, Parent(p), i);
      }
    }
  }

  lemma NothingPast(t: Tree, p: Path, n: nat)
    requires WellFormed(t) && n <= |p| && !IsDir(t, p[..n])
    ensures forall i :: n < i <= |p| ==> p[..i] !in t
  {
    forall i | n < i <= |p| ensures p[..i] !in t {
      assert p[..i][..n] == p[..n];
      NothingBelow(t, p[..i], n);
    }
  }

  /** What the kernel finds for a path that has no symlink among its prefixes. */
  lemma {:induction false} WalkCanonical(t: Tree, cur: Path, work: seq<Element>, links: nat)
    requires WellFormed(t) && Canonical(t, cur + work) && cur in t
    ensures KernelWalk(t, cur, work, links) ==
            if cur + work in t then Found(cur + work)
            else if IsDir(t, Parent(cur + work)) then Vacant(cur + work)
            else Fails
    decreases |work|
  {
    var p := cur + work;
    if work == [] {
      assert p == cur;
    } else {
      var e := work[0];
      var child := cur + [e];
      assert p[|cur|] == e;
      assert p[..|cur|] == cur;
      assert p[..|child|] == child;
      assert child + work[1..] == p;
      if !IsDir(t, cur) {
        NothingBelow(t, p, |cur|);
      } else if child in t {
        assert !IsLink(t, child);
        WalkCanonical(t, child, work[1..], links);
      } else if |work| == 1 {
        assert p == child && Parent(p) == cur;
      } else {
        NothingBelow(t, p, |child|);
      }
    }
  }

  /** Stat never ends on a symlink. */
  lemma {:induction false} WalkEndsOffLinks(t: Tree, cur: Path, work: seq<Element>, links: nat)
    requires WellFormed(t) && !IsLink(t, cur) && KernelWalk(t, cur, work, links).Found?
    ensures !IsLink(t, KernelWalk(t, cur, work, links).path)
    decreases links, |work|
  {
    if work != [] {
      var e, rest := work[0], work[1..];
      if e == "/" || e == "." {
        WalkEndsOffLinks(t, cur, rest, links);
      } else if e == ".." {
        assert Anchored(t, cur);
        WalkEndsOffLinks(t, Parent(cur), rest, links);
      } else if t[cur + [e]].Symlink? {
        assert Parent(cur + [e]) == cur;
        WalkEndsOffLinks(t, LinkBase(t, cur + [e]), t[cur + [e]].target + rest, links - 1);
      } else {
        WalkEndsOffLinks(t, cur + [e], rest, links);
      }
    }
  }

  // ----- Permissions -----

  /** Nobody may refuse the superuser a lookup. */
  function Anywhere(p: Path): bool {
    true
  }

  /** Looking a path up is refused: at a folder the caller may not search, or at one symlink too many. */
  predicate Refused(t: Tree, canSearch: Path -> bool, cur: Path, work: seq<Element>, links: nat)
    decreases links, |work|
  {
    if work == [] || !IsDir(t, cur) then false
    else
      var e, rest := work[0], work[1..];
      if e == "/" then Refused(t, canSearch, cur, rest, links)
      else if !canSearch(cur) then true
      else if e == "." then Refused(t, canSearch, cur, rest, links)
      else if e == ".." then Refused(t, canSearch, Parent(cur), rest, links)
      else if cur + [e] !in t then false
      else if t[cur + [e]].Symlink? then
        if links == 0 then true
        else if t[cur + [e]].target == [] then false
        else Refused(t, canSearch, LinkBase(t, cur + [e]), t[cur + [e]].target + rest, links - 1)
      else
        Refused(t, canSearch, cur + [e], rest, links)
  }

  /** One element of a lookup by a caller with these permissions: each name needs the right to search its folder. */
  lemma RefusedElement(t: Tree, canSearch: Path -> bool, cur: Path, e: Element, rest: seq<Element>, links: nat)
    requires cur in t && t[cur].Dir? && e != "/"
    ensures !canSearch(cur) ==> Refused(t, canSearch, cur, [e] + rest, links)
    ensures canSearch(cur) && e !in {".", ".."} && cur + [e] in t && t[cur + [e]].Symlink? ==>
              var g := t[cur + [e]].target;
              && Refused(t, canSearch, cur, [e] + rest, 0)
              && (Refused(t, canSearch, cur, [e] + rest, links + 1) <==>
                  g != [] && Refused(t, canSearch, if g[0] == "/" then [] else cur, g + rest, links))
    ensures canSearch(cur) && (e in {".", ".."} || cur + [e] !in t || !t[cur + [e]].Symlink?) ==>
              (Refused(t, canSearch, cur, [e] + rest, links) <==>
               if e == "." then Refused(t, canSearch, cur, rest, links)
               else if e == ".." then Refused(t, canSearch, cur[..if |cur| == 0 then 0 else |cur| - 1], rest, links)
               else cur + [e] in t && Refused(t, canSearch, cur + [e], rest, links))
  {
    assert ([e] + rest)[0] == e && ([e] + rest)[1..] == rest && Parent(cur + [e]) == cur;
  }

  lemma {:induction false} FoundIsNotRefused(t: Tree, cur: Path, work: seq<Element>, links: nat)
    requires KernelWalk(t, cur, work, links).Found?
    ensures !Refused(t, Anywhere, cur, work, links)
    decreases links, |work|
  {
    if work != [] {
      var e, rest := work[0], work[1..];
      if e == "/" || e == "." {
        FoundIsNotRefused(t, cur, rest, links);
      } else if e == ".." {
        FoundIsNotRefused(t, Parent(cur), rest, links);
      } else if t[cur + [e]].Symlink? {
        FoundIsNotRefused(t, LinkBase(t, cur + [e]), t[cur + [e]].target + rest, links - 1);
      } else {
        FoundIsNotRefused(t, cur + [e], rest, links);
      }
    }
  }

  /**
   * A walk is the walk of a first part, and of the rest from where that ends, with the symlinks that
   * may then still be followed.
   */
  lemma {:induction false} WalkSplits(t: Tree, canSearch: Path -> bool, cur: Path, first: seq<Element>,
                                      rest: seq<Element>, links: nat)
    returns (left: nat)
    requires KernelWalk(t, cur, first, links).Found?
    ensures var d := KernelWalk(t, cur, first, links).path;
            && KernelWalk(t, cur, first + rest, links) == KernelWalk(t, d, rest, left)
            && (Refused(t, canSearch, cur, first + rest, links) <==>
                Refused(t, canSearch, cur, first, links) || Refused(t, canSearch, d, rest, left))
    decreases links, |first|
  {
    if first == [] {
      assert first + rest == rest;
      left := links;
    } else {
      var e, tail := first[0], first[1..];
      assert (first + rest)[0] == e && (first + rest)[1..] == tail + rest;
      if e == "/" || e == "." {
        left := WalkSplits(t, canSearch, cur, tail, rest, links);
      } else if e == ".." {
        left := WalkSplits(t, canSearch, Parent(cur), tail, rest, links);
      } else if t[cur + [e]].Symlink? {
        var base, target := LinkBase(t, cur + [e]), t[cur + [e]].target;
        left := WalkSplits(t, canSearch, base, target + tail, rest, links - 1);
        assert target + (tail + rest) == (target + tail) + rest;
      } else {
        left := WalkSplits(t, canSearch, cur + [e], tail, rest, links);
      }
    }
  }

  /** What is refused on the way is refused. */
  lemma {:induction false} RefusedEarly(t: Tree, canSearch: Path -> bool, cur: Path, first: seq<Element>,
                                        rest: seq<Element>, links: nat)
    requires Refused(t, canSearch, cur, first, links)
    ensures Refused(t, canSearch, cur, first + rest, links)
    decreases links, |first|
  {
    var e, tail := first[0], first[1..];
    assert (first + rest)[0] == e && (first + rest)[1..] == tail + rest;
    if e == "/" || (canSearch(cur) && e == ".") {
      RefusedEarly(t, canSearch, cur, tail, rest, links);
    } else if canSearch(cur) && e == ".." {
      RefusedEarly(t, canSearch, Parent(cur), tail, rest, links);
    } else if canSearch(cur) && t[cur + [e]].Symlink? {
      if links > 0 {
        var base, target := LinkBase(t, cur + [e]), t[cur + [e]].target;
        RefusedEarly(t, canSearch, base, target + tail, rest, links - 1);
        assert target + (tail + rest) == (target + tail) + rest;
      }
    } else if canSearch(cur) {
      RefusedEarly(t, canSearch, cur + [e], tail, rest, links);
    }
  }

  /** A walk that gets anywhere beyond its first part finds that part. */
  lemma {:induction false} FirstPartIsFound(t: Tree, cur: Path, first: seq<Element>, rest: seq<Element>, links: nat)
    requires var w := KernelWalk(t, cur, first + rest, links);
             w.Found? || (w.Vacant? && rest != [])
    ensures KernelWalk(t, cur, first, links).Found?
    decreases links, |first|
  {
    if first == [] {
      assert first + rest == rest;
    } else {
      var e, tail := first[0], first[1..];
      assert (first + rest)[0] == e && (first + rest)[1..] == tail + rest;
      if e == "/" || e == "." {
        FirstPartIsFound(t, cur, tail, rest, links);
      } else if e == ".." {
        FirstPartIsFound(t, Parent(cur), tail, rest, links);
      } else if t[cur + [e]].Symlink? {
        var base, target := LinkBase(t, cur + [e]), t[cur + [e]].target;
        assert target + (tail + rest) == (target + tail) + rest;
        FirstPartIsFound(t, base, target + tail, rest, links - 1);
      } else {
        FirstPartIsFound(t, cur + [e], tail, rest, links);
      }
    }
  }

  lemma {:induction false} SamePermissions(t: Tree, canSearch: Path -> bool, mayEnter: Path -> bool, cur: Path,
                                           work: seq<Element>, links: nat)
    requires forall p :: canSearch(p) == mayEnter(p)
    ensures Refused(t, canSearch, cur, work, links) == Refused(t, mayEnter, cur, work, links)
    decreases links, |work|
  {
    if work != [] && IsDir(t, cur) {
      var e, rest := work[0], work[1..];
      if e == "/" || e == "." {
        SamePermissions(t, canSearch, mayEnter, cur, rest, links);
      } else if e == ".." {
        SamePermissions(t, canSearch, mayEnter, Parent(cur), rest, links);
      } else if cur + [e] in t {
        if t[cur + [e]].Symlink? {
          if links > 0 && t[cur + [e]].target != [] {
            SamePermissions(t, canSearch, mayEnter, LinkBase(t, cur + [e]), t[cur + [e]].target + rest, links - 1);
          }
        } else {
          SamePermissions(t, canSearch, mayEnter, cur + [e], rest, links);
        }
      }
    }
  }

  predicate SearchableTo(canSearch: Path -> bool, p: Path) {
    forall i :: 0 <= i < |p| ==> canSearch(p[..i])
  }

  /** No folder on the way to `p` keeps the caller out, as far as there are folders. */
  predicate Reaches(t: Tree, canSearch: Path -> bool, p: Path) {
    forall i :: 0 <= i < |p| && IsDir(t, p[..i]) ==> canSearch(p[..i])
  }

  /** The nodes that a caller with these permissions can lstat. */
  function Visible(t: Tree, canSearch: Path -> bool): Tree {
    map p | p in t && SearchableTo(canSearch, p) :: t[p]
  }

  /** What a walk finds has no symlink on the way, and its folders are those the caller has searched. */
  lemma {:induction false} FoundIsCanonical(t: Tree, canSearch: Path -> bool, cur: Path, work: seq<Element>, links: nat)
    requires WellFormed(t) && Canonical(t, cur) && KernelWalk(t, cur, work, links).Found?
    ensures Canonical(t, KernelWalk(t, cur, work, links).path)
    ensures SearchableTo(canSearch, cur) && !Refused(t, canSearch, cur, work, links) ==>
              SearchableTo(canSearch, KernelWalk(t, cur, work, links).path)
    decreases links, |work|
  {
    if work != [] {
      var e, rest := work[0], work[1..];
      if e == "/" || e == "." {
        FoundIsCanonical(t, canSearch, cur, rest, links);
      } else if e == ".." {
        CanonicalParent(t, cur);
        assert forall i :: 0 <= i < |Parent(cur)| ==> Parent(cur)[..i] == cur[..i];
        FoundIsCanonical(t, canSearch, Parent(cur), rest, links);
      } else if t[cur + [e]].Symlink? {
        assert Parent(cur + [e]) == cur;
        CanonicalRoot(t);
        FoundIsCanonical(t, canSearch, LinkBase(t, cur + [e]), t[cur + [e]].target + rest, links - 1);
      } else {
        CanonicalChild(t, cur, e);
        assert forall i :: 0 <= i < |cur| ==> (cur + [e])[..i] == cur[..i];
        assert (cur + [e])[..|cur|] == cur;
        FoundIsCanonical(t, canSearch, cur + [e], rest, links);
      }
    }
  }

  /** Without visible symlinks on the way, a lookup is refused exactly if some folder there may not be searched. */
  lemma {:induction false} RefusedCanonical(t: Tree, canSearch: Path -> bool, cur: Path, work: seq<Element>, links: nat)
    requires WellFormed(t) && Canonical(Visible(t, canSearch), cur + work)
    requires cur in t && SearchableTo(canSearch, cur)
    ensures Refused(t, canSearch, cur, work, links) <==> !Reaches(t, canSearch, cur + work)
    decreases |work|
  {
    var p := cur + work;
    assert forall i :: 0 <= i < |cur| ==> p[..i] == cur[..i];
    if work != [] {
      var e := work[0];
      var child := cur + [e];
      assert p[|cur|] == e && p[..|cur|] == cur && p[..|child|] == child;
      assert child + work[1..] == p;
      if !IsDir(t, cur) {
        NothingPast(t, p, |cur|);
      } else if canSearch(cur) {
        forall i | 0 <= i < |child| ensures canSearch(child[..i]) {
          assert child[..i] == cur[..i];
          assert i == |cur| ==> cur[..i] == cur;
        }
        if child in t {
          assert child in Visible(t, canSearch);
          RefusedCanonical(t, canSearch, child, work[1..], links);
        } else {
          NothingPast(t, p, |child|);
        }
      }
    }
  }

  /** What is canonical in sight of a caller that nothing on the way refuses is canonical. */
  lemma ReachedIsCanonical(t: Tree, canSearch: Path -> bool, p: Path)
    requires WellFormed(t) && Canonical(Visible(t, canSearch), p) && Reaches(t, canSearch, p)
    ensures Canonical(t, p)
  {
    forall i | 0 <= i <= |p| ensures !IsLink(t, p[..i]) {
      if p[..i] in t {
        forall j | 0 <= j < |p[..i]| ensures canSearch(p[..i][..j]) {
          PrefixIsDir(t, p[..i], j);
          assert p[..i][..j] == p[..j];
        }
        assert p[..i] in Visible(t, canSearch);
      }
    }
  }

  lemma VisibleIsCanonical(t: Tree, canSearch: Path -> bool, p: Path)
    requires Canonical(t, p)
    ensures Canonical(Visible(t, canSearch), p)
  {
    forall i | 0 <= i <= |p| ensures !IsLink(Visible(t, canSearch), p[..i]) {
      assert !IsLink(t, p[..i]);
    }
  }
}
