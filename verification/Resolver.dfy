/**
 * Symlink resolution inside a root filesystem (src/utility/filesystem.cpp).
 *
 * The tree holds what lies under the root filesystem.  The C++ function has no
 * bound on its recursion; here `depth` bounds how many link targets may be open
 * at once, and None stands for a call that has not returned within that bound.
 */
module Resolver {
  import opened Wrappers
  import opened FileTree

  datatype Resolved = Resolved(path: Path, log: seq<Path>)

  /** The result of appending `els` to `cur`, with the links traversed, in order. */
  function Append(t: Tree, cur: Path, els: seq<Element>, depth: nat): Option<Resolved>
    decreases depth, |els|
  {
    if els == [] then Some(Resolved(cur, []))
    else
      var e, rest := els[0], els[1..];
      if e == "/" || e == "." then Append(t, cur, rest, depth)
      else if e == ".." then Append(t, Parent(cur), rest, depth)
      else if IsLink(t, cur + [e]) then
        if depth == 0 then None
        else
          match Append(t, LinkBase(t, cur + [e]), t[cur + [e]].target, depth - 1)
          case None => None
          case Some(link) =>
            match Append(t, link.path, rest, depth)
            case None => None
            case Some(tail) => Some(Resolved(tail.path, [cur + [e]] + link.log + tail.log))
      else Append(t, cur + [e], rest, depth)
  }

  /** One bound that is enough for every call that returns at all (see ResolverTermination). */
  function Resolve(t: Tree, cur: Path, els: seq<Element>): Option<Resolved> {
    Append(t, cur, els, |Links(t)|)
  }

  // ----- The source's loop -----

  /** A `std::vector<path>` that callers may pass, or not, to collect the traversed links. */
  class PathVector {
    var items: seq<Path>

    constructor ()
      ensures items == []
    {
      items := [];
    }
  }

  /** What `Append` gives once the elements before `k` are done. */
  ghost predicate LoopState(t: Tree, path0: Path, path1: seq<Element>, depth: nat, k: nat,
                            current: Path, log: seq<Path>)
    requires k <= |path1|
  {
    Append(t, path0, path1, depth) ==
    match Append(t, current, path1[k..], depth)
    case None => None
    case Some(r) => Some(Resolved(r.path, log + r.log))
  }

  method AppendPathsWithinRootfs(t: Tree, path0: Path, path1: seq<Element>, traversed: PathVector?, depth: nat)
    returns (r: Option<Path>)
    modifies traversed
    ensures r.Some? <==> Append(t, path0, path1, depth).Some?
    ensures r.Some? ==> r.value == Append(t, path0, path1, depth).value.path
    ensures traversed != null && r.Some? ==>
              traversed.items == old(traversed.items) + Append(t, path0, path1, depth).value.log
    decreases depth, 1
  {
    var current := path0;
    ghost var log: seq<Path> := [];
    LoopStarts(t, path0, path1, depth);
    for k := 0 to |path1|
      invariant LoopState(t, path0, path1, depth, k, current, log)
      invariant traversed != null ==> traversed.items == old(traversed.items) + log
    {
      var element := path1[k];
      if Plain(element) && IsLink(t, current + [element]) {
        LinkStep(t, path0, path1, depth, k, current, log);
        var resolved := FollowLink(t, current, element, traversed, depth);
        if resolved == None {
          return None;
        }
        log := log + LinkLog(t, current + [element], depth);
        current := resolved.value;
      } else {
        PlainStep(t, path0, path1, depth, k, current, log);
        if element == "/" {
        } else if element == "." {
        } else if element == ".." {
          if current != [] {
            current := current[..|current| - 1];
          }
        } else {
          current := current + [element];
        }
      }
    }
    assert path1[|path1|..] == [];
    r := Some(current);
  }

  /** The branch for a symlink: log it, read its target, resolve that. */
  method FollowLink(t: Tree, current: Path, element: Element, traversed: PathVector?, depth: nat)
    returns (r: Option<Path>)
    requires IsLink(t, current + [element])
    modifies traversed
    ensures r.Some? <==> Target(t, current + [element], depth).Some?
    ensures r.Some? ==> r.value == Target(t, current + [element], depth).value.path
    ensures traversed != null && r.Some? ==>
              traversed.items == old(traversed.items) + LinkLog(t, current + [element], depth)
    decreases depth, 0
  {
    if traversed != null {
      traversed.items := traversed.items + [current + [element]];
    }
    if depth == 0 {
      return None;
    }
    assert Parent(current + [element]) == current;
    var target := t[current + [element]].target;
    if IsAbsolute(target) {
      r := AppendPathsWithinRootfs(t, [], target, traversed, depth - 1);
    } else {
      r := AppendPathsWithinRootfs(t, current, target, traversed, depth - 1);
    }
  }

  /** What resolving the target of link `p` gives to a call with this bound. */
  function Target(t: Tree, p: Path, depth: nat): Option<Resolved>
    requires IsLink(t, p)
  {
    if depth == 0 then None else Append(t, LinkBase(t, p), t[p].target, depth - 1)
  }

  /** The part of the log that link `p` accounts for. */
  function LinkLog(t: Tree, p: Path, depth: nat): seq<Path>
    requires IsLink(t, p) && Target(t, p, depth).Some?
  {
    [p] + Target(t, p, depth).value.log
  }

  lemma LoopStarts(t: Tree, path0: Path, path1: seq<Element>, depth: nat)
    ensures LoopState(t, path0, path1, depth, 0, path0, [])
  {
    assert path1[0..] == path1;
    if Append(t, path0, path1, depth).Some? {
      assert [] + Append(t, path0, path1, depth).value.log == Append(t, path0, path1, depth).value.log;
    }
  }

  /** Where an element that is not a link leads. */
  function Advance(current: Path, e: Element): Path {
    if e == "/" || e == "." then current
    else if e == ".." then Parent(current)
    else current + [e]
  }

  lemma PlainStep(t: Tree, path0: Path, path1: seq<Element>, depth: nat, k: nat, current: Path, log: seq<Path>)
    requires k < |path1| && !(Plain(path1[k]) && IsLink(t, current + [path1[k]]))
    requires LoopState(t, path0, path1, depth, k, current, log)
    ensures LoopState(t, path0, path1, depth, k + 1, Advance(current, path1[k]), log)
  {
    assert path1[k..][0] == path1[k] && path1[k..][1..] == path1[k + 1..];
  }

  lemma LinkStep(t: Tree, path0: Path, path1: seq<Element>, depth: nat, k: nat, current: Path, log: seq<Path>)
    requires k < |path1| && Plain(path1[k]) && IsLink(t, current + [path1[k]])
    requires LoopState(t, path0, path1, depth, k, current, log)
    ensures var p := current + [path1[k]];
            if Target(t, p, depth).None? then Append(t, path0, path1, depth).None?
            else LoopState(t, path0, path1, depth, k + 1, Target(t, p, depth).value.path, log + LinkLog(t, p, depth))
  {
    var p := current + [path1[k]];
    assert path1[k..][0] == path1[k] && path1[k..][1..] == path1[k + 1..];
    var link := Target(t, p, depth);
    if link.Some? {
      var tail := Append(t, link.value.path, path1[k + 1..], depth);
      if tail.Some? {
        assert log + ([p] + link.value.log + tail.value.log) == log + ([p] + link.value.log) + tail.value.log;
      }
    }
  }

  /** `realpathWithinRootfs`: a relative path is an Error; otherwise resolve from "/". */
  method RealpathWithinRootfs(t: Tree, path: seq<Element>, depth: nat) returns (r: Result<Option<Path>>)
    ensures r.Error? <==> !IsAbsolute(path)
    ensures r.Ok? ==> (r.value.Some? <==> Append(t, [], path, depth).Some?)
    ensures r.Ok? && r.value.Some? ==> r.value.value == Append(t, [], path, depth).value.path
  {
    if !IsAbsolute(path) {
      return Error;
    }
    var p := AppendPathsWithinRootfs(t, [], path, null, depth);
    r := Ok(p);
  }

  // ----- Laws of resolution -----

  /** What one element that is no symlink does to the path so far, whatever the depth. */
  lemma PlainElement(t: Tree, cur: Path, e: Element, depth: nat)
    requires e in {"/", ".", ".."} || (cur + [e] in t ==> !t[cur + [e]].Symlink?)
    ensures Append(t, cur, [e], depth) ==
            Some(Resolved(if e == "/" || e == "." then cur
                          else if e == ".." then cur[..if |cur| == 0 then 0 else |cur| - 1]
                          else cur + [e], []))
  {
    assert [e][0] == e && [e][1..] == [];
  }

  /**
   * What a symlink does: it is logged, then its target is resolved, from the root if the target starts
   * with "/", and from the folder of the symlink otherwise.
   */
  lemma SymlinkElement(t: Tree, cur: Path, e: Element, depth: nat)
    requires e !in {"/", ".", ".."} && cur + [e] in t && t[cur + [e]].Symlink?
    ensures Append(t, cur, [e], 0) == None
    ensures var g := t[cur + [e]].target;
            var r := Append(t, if g != [] && g[0] == "/" then [] else cur, g, depth);
            Append(t, cur, [e], depth + 1) ==
            if r.None? then None else Some(Resolved(r.value.path, [cur + [e]] + r.value.log))
  {
    assert [e][0] == e && [e][1..] == [] && Parent(cur + [e]) == cur;
    var g := t[cur + [e]].target;
    var r := Append(t, if g != [] && g[0] == "/" then [] else cur, g, depth);
    if r.Some? {
      assert [cur + [e]] + r.value.log + [] == [cur + [e]] + r.value.log;
    }
  }

  /** For instance /a/l, which links to /b, resolves to /b and not to /a/b. */
  lemma AbsoluteTargetExample()
    ensures var t: Tree := map[[] := Dir(0, 0, 0), ["a"] := Dir(0, 0, 0), ["b"] := Dir(0, 0, 0),
                               ["a", "l"] := Symlink(["/", "b"])];
            Resolve(t, [], ["/", "a", "l"]) == Some(Resolved(["b"], [["a", "l"]]))
  {
    var t: Tree := map[[] := Dir(0, 0, 0), ["a"] := Dir(0, 0, 0), ["b"] := Dir(0, 0, 0),
                       ["a", "l"] := Symlink(["/", "b"])];
    assert ["a", "l"] in Links(t);
    var n := |Links(t)| - 1;
    assert [] + ["a"] == ["a"] && ["a"] + ["l"] == ["a", "l"] && [] + ["b"] == ["b"];
    assert ["/", "b"][0] == "/" && ["/", "b"][1..] == ["b"];
    PlainElement(t, [], "b", n);
    assert Append(t, [], ["/", "b"], n) == Some(Resolved(["b"], []));
    SymlinkElement(t, ["a"], "l", n);
    assert ["/", "a", "l"][1..] == ["a", "l"] && ["a", "l"][1..] == ["l"];
    assert Append(t, [], ["a", "l"], n + 1) == Append(t, ["a"], ["l"], n + 1);
    assert [["a", "l"]] + [] == [["a", "l"]];
  }

  /** Once a call returns, a larger bound changes nothing. */
  lemma {:induction false} AppendMonotonic(t: Tree, cur: Path, els: seq<Element>, depth: nat, more: nat)
    requires Append(t, cur, els, depth).Some? && depth <= more
    ensures Append(t, cur, els, more) == Append(t, cur, els, depth)
    decreases depth, |els|
  {
    if els != [] {
      var e, rest := els[0], els[1..];
      if e == "/" || e == "." {
        AppendMonotonic(t, cur, rest, depth, more);
      } else if e == ".." {
        AppendMonotonic(t, Parent(cur), rest, depth, more);
      } else if IsLink(t, cur + [e]) {
        var p := cur + [e];
        AppendMonotonic(t, LinkBase(t, p), t[p].target, depth - 1, more - 1);
        AppendMonotonic(t, Append(t, LinkBase(t, p), t[p].target, depth - 1).value.path, rest, depth, more);
      } else {
        AppendMonotonic(t, cur + [e], rest, depth, more);
      }
    }
  }

  function Sequence(first: Option<Resolved>, second: Path -> Option<Resolved>): Option<Resolved> {
    match first
    case None => None
    case Some(a) =>
      match second(a.path)
      case None => None
      case Some(b) => Some(Resolved(b.path, a.log + b.log))
  }

  /** Resolving p and then q is resolving p joined with q; the logs are concatenated. */
  lemma {:induction false} AppendComposes(t: Tree, cur: Path, p: seq<Element>, q: seq<Element>, depth: nat)
    ensures Append(t, cur, p + q, depth) ==
            Sequence(Append(t, cur, p, depth), c => Append(t, c, q, depth))
    decreases |p|
  {
    if p == [] {
      assert p + q == q;
      var b := Append(t, cur, q, depth);
      assert b.Some? ==> [] + b.value.log == b.value.log;
    } else {
      var e, rest := p[0], p[1..];
      assert (p + q)[0] == e && (p + q)[1..] == rest + q;
      if e == "/" || e == "." {
        AppendComposes(t, cur, rest, q, depth);
      } else if e == ".." {
        AppendComposes(t, Parent(cur), rest, q, depth);
      } else if IsLink(t, cur + [e]) {
        if depth > 0 {
          var l := cur + [e];
          var link := Append(t, LinkBase(t, l), t[l].target, depth - 1);
          if link.Some? {
            AppendComposes(t, link.value.path, rest, q, depth);
            var a := Append(t, link.value.path, rest, depth);
            if a.Some? {
              var b := Append(t, a.value.path, q, depth);
              if b.Some? {
                assert [l] + link.value.log + (a.value.log + b.value.log)
                    == ([l] + link.value.log + a.value.log) + b.value.log;
              }
            }
          }
        }
      } else {
        AppendComposes(t, cur + [e], rest, q, depth);
      }
    }
  }

  /** A logged path is a symlink that sits in a fully resolved directory path. */
  ghost predicate LoggedLink(t: Tree, p: Path) {
    p != [] && IsLink(t, p) && AllPlain(p) && Canonical(t, Parent(p))
  }

  /** From a canonical start, the result is canonical and so is the parent of every logged link. */
  lemma {:induction false} ResolutionIsCanonical(t: Tree, cur: Path, els: seq<Element>, depth: nat)
    requires !IsLink(t, []) && Canonical(t, cur) && Append(t, cur, els, depth).Some?
    ensures var r := Append(t, cur, els, depth).value;
            && Canonical(t, r.path)
            && forall i :: 0 <= i < |r.log| ==> LoggedLink(t, r.log[i])
    decreases depth, |els|
  {
    if els != [] {
      var e, rest := els[0], els[1..];
      if e == "/" || e == "." {
        ResolutionIsCanonical(t, cur, rest, depth);
      } else if e == ".." {
        CanonicalParent(t, cur);
        ResolutionIsCanonical(t, Parent(cur), rest, depth);
      } else if IsLink(t, cur + [e]) {
        var p := cur + [e];
        assert Parent(p) == cur;
        CanonicalRoot(t);
        ResolutionIsCanonical(t, LinkBase(t, p), t[p].target, depth - 1);
        ResolutionIsCanonical(t, Append(t, LinkBase(t, p), t[p].target, depth - 1).value.path, rest, depth);
      } else {
        CanonicalChild(t, cur, e);
        ResolutionIsCanonical(t, cur + [e], rest, depth);
      }
    }
  }

  /** A canonical path resolves to itself, without traversing anything, whatever the bound. */
  lemma {:induction false} CanonicalIsFixed(t: Tree, cur: Path, els: Path, depth: nat)
    requires Canonical(t, cur + els)
    ensures Append(t, cur, els, depth) == Some(Resolved(cur + els, []))
    decreases |els|
  {
    if els == [] {
      assert cur + els == cur;
    } else {
      var child := cur + [els[0]];
      assert (cur + els)[..|child|] == child;
      assert (cur + els)[|cur|] == els[0];
      assert child + els[1..] == cur + els;
      CanonicalIsFixed(t, child, els[1..], depth);
    }
  }

  /** Resolving a result again gives it back with an empty log. */
  lemma ResolutionIsIdempotent(t: Tree, path: seq<Element>, depth: nat, again: nat)
    requires WellFormed(t) && Append(t, [], path, depth).Some?
    ensures var r := Append(t, [], path, depth).value.path;
            Append(t, [], Elements(r), again) == Some(Resolved(r, []))
  {
    var r := Append(t, [], path, depth).value.path;
    CanonicalRoot(t);
    ResolutionIsCanonical(t, [], path, depth);
    assert [] + r == r;
    CanonicalIsFixed(t, [], r, again);
    assert Elements(r)[1..] == r;
  }
}
