/**
 File paths under an ordered list of source roots: locating a class's file
 (first root wins) and the root-relative path shown in the output.
 */
module Paths {
  import opened Optional
  import opened Names

  /** A file-system path, written with the platform separator. */
  type Path = string

  /** `root.resolve(rel)`. */
  function Resolve(root: Path, sep: char, rel: string): Path {
    root + [sep] + rel
  }

  /** The file `rel` exists under `roots[i]` and under no earlier root. */
  ghost predicate FoundAt(roots: seq<Path>, sep: char, files: set<Path>, rel: string, i: int) {
    && 0 <= i < |roots|
    && Resolve(roots[i], sep, rel) in files
    && forall j :: 0 <= j < i ==> Resolve(roots[j], sep, rel) !in files
  }

  /** The candidate `rel` under the first root, in list order, where it exists. */
  function FirstExisting(roots: seq<Path>, sep: char, files: set<Path>, rel: string): (r: Option<Path>)
    ensures r.None? <==> forall i :: 0 <= i < |roots| ==> Resolve(roots[i], sep, rel) !in files
    ensures r.Some? ==> r.value in files
    ensures r.Some? ==> exists i :: FoundAt(roots, sep, files, rel, i) && r.value == Resolve(roots[i], sep, rel)
  {
    if roots == [] then None
    else if Resolve(roots[0], sep, rel) in files then
      assert FoundAt(roots, sep, files, rel, 0);
      Some(Resolve(roots[0], sep, rel))
    else
      var r := FirstExisting(roots[1..], sep, files, rel);
      assert r.Some? ==> exists i :: FoundAt(roots, sep, files, rel, i) && r.value == Resolve(roots[i], sep, rel) by {
        if r.Some? {
          var i :| FoundAt(roots[1..], sep, files, rel, i) && r.value == Resolve(roots[1..][i], sep, rel);
          assert FoundAt(roots, sep, files, rel, i + 1);
        }
      }
      assert r.None? ==> forall i :: 0 <= i < |roots| ==> Resolve(roots[i], sep, rel) !in files by {
        if r.None? {
          forall i | 0 < i < |roots| ensures Resolve(roots[i], sep, rel) !in files {
            assert roots[i] == roots[1..][i - 1];
          }
        }
      }
      r
  }

  /** `p` lies under `root`: it starts with `root` followed by a separator. */
  predicate Under(root: Path, sep: char, p: Path) {
    root + [sep] <= p
  }

  /** `roots[i]` is the first root that `p` lies under. */
  ghost predicate FirstUnder(roots: seq<Path>, sep: char, p: Path, i: int) {
    && 0 <= i < |roots|
    && Under(roots[i], sep, p)
    && forall j :: 0 <= j < i ==> !Under(roots[j], sep, p)
  }

  /** The path written in the START/END markers: relative to the first root
      that `p` lies under, with backslashes turned into slashes, or `p`
      itself when it lies under no root. */
  function DisplayPath(roots: seq<Path>, sep: char, p: Path): (r: string)
    ensures (forall i :: 0 <= i < |roots| ==> !Under(roots[i], sep, p)) ==> r == p
    ensures forall i :: FirstUnder(roots, sep, p, i) ==> r == Replace(p[|roots[i]| + 1..], '\\', '/')
  {
    if roots == [] then p
    else if Under(roots[0], sep, p) then Replace(p[|roots[0]| + 1..], '\\', '/')
    else
      assert forall i :: FirstUnder(roots, sep, p, i) ==> i > 0 && FirstUnder(roots[1..], sep, p, i - 1) by {
        forall i | FirstUnder(roots, sep, p, i) ensures i > 0 && FirstUnder(roots[1..], sep, p, i - 1) {
          forall j | 0 <= j < i - 1 ensures !Under(roots[1..][j], sep, p) {
            assert roots[1..][j] == roots[j + 1];
          }
        }
      }
      DisplayPath(roots[1..], sep, p)
  }

  /** No root lies under another, as in a project whose roots are disjoint
      directories. */
  ghost predicate DisjointRoots(roots: seq<Path>, sep: char) {
    forall i, j :: 0 <= i < |roots| && 0 <= j < |roots| && i != j ==> !(roots[i] + [sep] <= roots[j] + [sep])
  }

  /** With disjoint roots, a file located under a root is displayed as its
      root-relative name, backslashes turned into slashes. */
  lemma DisplayOfLocated(roots: seq<Path>, sep: char, files: set<Path>, rel: string)
    requires DisjointRoots(roots, sep)
    requires FirstExisting(roots, sep, files, rel).Some?
    ensures DisplayPath(roots, sep, FirstExisting(roots, sep, files, rel).value) == Replace(rel, '\\', '/')
  {
    var p := FirstExisting(roots, sep, files, rel).value;
    var i :| FoundAt(roots, sep, files, rel, i) && p == Resolve(roots[i], sep, rel);
    assert Under(roots[i], sep, p);
    forall j | 0 <= j < i ensures !Under(roots[j], sep, p) {
      if Under(roots[j], sep, p) {
        PrefixesOfOne(roots[j] + [sep], roots[i] + [sep], p);
        assert false;
      }
    }
    assert FirstUnder(roots, sep, p, i);
    assert p[|roots[i]| + 1..] == rel;
  }

  /** Two prefixes of one sequence are prefixes of each other. */
  lemma PrefixesOfOne(a: string, b: string, p: string)
    requires a <= p && b <= p
    ensures a <= b || b <= a
  {
    if |a| <= |b| {
      assert a == p[..|a|] == b[..|a|];
    } else {
      assert b == p[..|b|] == a[..|b|];
    }
  }
}
