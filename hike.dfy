/** The file-system search the application delegates to (`Hike::Trail#find`),
    reduced to its contract: candidates are tried in the order given, and for
    each candidate the roots in their configured order; the first file that
    exists wins. The file system is a set of existing paths. */
module Hike {
  import opened Base

  /** The configured search roots, earliest first. */
  datatype Trail = Trail(roots: seq<Path>)

  /** A candidate is looked up relative to a root, its leading '/' dropped. */
  function Under(root: Path, candidate: Path): Path
  {
    root + "/" + (if candidate != [] && candidate[0] == '/' then candidate[1..] else candidate)
  }

  /** Candidate `i` exists under root `j`. */
  predicate Hit(roots: seq<Path>, files: set<Path>, candidates: seq<Path>, i: int, j: int)
    requires 0 <= i < |candidates| && 0 <= j < |roots|
  {
    Under(roots[j], candidates[i]) in files
  }

  /** Candidate `i` under root `j` is the first hit in search order. */
  predicate FirstHit(roots: seq<Path>, files: set<Path>, candidates: seq<Path>, i: int, j: int)
  {
    && 0 <= i < |candidates| && 0 <= j < |roots|
    && Hit(roots, files, candidates, i, j)
    && (forall i', j' :: 0 <= i' < i && 0 <= j' < |roots| ==> !Hit(roots, files, candidates, i', j'))
    && (forall j' :: 0 <= j' < j ==> !Hit(roots, files, candidates, i, j'))
  }

  /** The roots from index `j` on, for one candidate. */
  function FindInRoots(roots: seq<Path>, files: set<Path>, candidates: seq<Path>, i: nat, j: nat): (r: Option<Path>)
    requires i < |candidates| && j <= |roots|
    ensures r.None? <==> forall j' :: j <= j' < |roots| ==> !Hit(roots, files, candidates, i, j')
    ensures r.Some? ==> exists j' :: j <= j' < |roots| && r.value == Under(roots[j'], candidates[i])
                          && Hit(roots, files, candidates, i, j')
                          && forall j'' :: j <= j'' < j' ==> !Hit(roots, files, candidates, i, j'')
    decreases |roots| - j
  {
    if j == |roots| then None
    else if Hit(roots, files, candidates, i, j) then Some(Under(roots[j], candidates[i]))
    else FindInRoots(roots, files, candidates, i, j + 1)
  }

  /** The candidates from index `i` on. */
  function FindFrom(roots: seq<Path>, files: set<Path>, candidates: seq<Path>, i: nat): (r: Option<Path>)
    requires i <= |candidates|
    requires forall i', j' :: 0 <= i' < i && 0 <= j' < |roots| ==> !Hit(roots, files, candidates, i', j')
    ensures r.None? <==> forall i', j' :: i <= i' < |candidates| && 0 <= j' < |roots| ==> !Hit(roots, files, candidates, i', j')
    ensures r.Some? ==> exists i', j' :: FirstHit(roots, files, candidates, i', j') && r.value == Under(roots[j'], candidates[i'])
    decreases |candidates| - i
  {
    if i == |candidates| then None
    else
      match FindInRoots(roots, files, candidates, i, 0)
      case Some(p) => Some(p)
      case None => FindFrom(roots, files, candidates, i + 1)
  }

  /** `trail.find(*candidates)`: the first candidate, under the first root,
      that names an existing file; `None` when no candidate exists anywhere. */
  function Find(trail: Trail, files: set<Path>, candidates: seq<Path>): (r: Option<Path>)
    ensures r.None? <==> forall i, j :: 0 <= i < |candidates| && 0 <= j < |trail.roots| ==> !Hit(trail.roots, files, candidates, i, j)
    ensures r.Some? ==> r.value in files
    ensures r.Some? ==> exists i, j :: FirstHit(trail.roots, files, candidates, i, j) && r.value == Under(trail.roots[j], candidates[i])
  {
    FindFrom(trail.roots, files, candidates, 0)
  }

  /** Search order is a strict order: there is only one first hit. */
  lemma FirstHitUnique(roots: seq<Path>, files: set<Path>, candidates: seq<Path>, i1: int, j1: int, i2: int, j2: int)
    requires FirstHit(roots, files, candidates, i1, j1) && FirstHit(roots, files, candidates, i2, j2)
    ensures i1 == i2 && j1 == j2
  {
  }

  /** When candidate `i` exists under root `j` and no earlier pair does, the
      search returns exactly that file. */
  lemma FindReturnsFirstHit(trail: Trail, files: set<Path>, candidates: seq<Path>, i: int, j: int)
    requires FirstHit(trail.roots, files, candidates, i, j)
    ensures Find(trail, files, candidates) == Some(Under(trail.roots[j], candidates[i]))
  {
    var r := Find(trail, files, candidates);
    assert r.Some?;
    var i', j' :| FirstHit(trail.roots, files, candidates, i', j') && r.value == Under(trail.roots[j'], candidates[i']);
    FirstHitUnique(trail.roots, files, candidates, i, j, i', j');
  }

  /** If candidate `i` exists under some root, the earliest such hit exists. */
  lemma {:induction false} EarliestRoot(roots: seq<Path>, files: set<Path>, candidates: seq<Path>, i: int, j: int)
    requires 0 <= i < |candidates| && 0 <= j < |roots| && Hit(roots, files, candidates, i, j)
    ensures exists j0 :: 0 <= j0 <= j && Hit(roots, files, candidates, i, j0)
                         && forall j' :: 0 <= j' < j0 ==> !Hit(roots, files, candidates, i, j')
    decreases j
  {
    if exists j' :: 0 <= j' < j && Hit(roots, files, candidates, i, j') {
      var j' :| 0 <= j' < j && Hit(roots, files, candidates, i, j');
      EarliestRoot(roots, files, candidates, i, j');
    }
  }

  /** A search for a single candidate. */
  lemma FindSingle(trail: Trail, files: set<Path>, c: Path)
    ensures Find(trail, files, [c]).None? <==> forall j :: 0 <= j < |trail.roots| ==> Under(trail.roots[j], c) !in files
    ensures Find(trail, files, [c]).Some? ==>
              exists j :: 0 <= j < |trail.roots| && Find(trail, files, [c]).value == Under(trail.roots[j], c)
  {
    var cs := [c];
    var r := Find(trail, files, cs);
    if r.Some? {
      var i, j :| FirstHit(trail.roots, files, cs, i, j) && r.value == Under(trail.roots[j], cs[i]);
      assert i == 0;
    } else {
      forall j | 0 <= j < |trail.roots| ensures Under(trail.roots[j], c) !in files {
        assert !Hit(trail.roots, files, cs, 0, j);
      }
    }
  }

  /** A search for two candidates. */
  lemma FindPair(trail: Trail, files: set<Path>, a: Path, b: Path)
    ensures Find(trail, files, [a, b]).None? <==>
              forall j :: 0 <= j < |trail.roots| ==> Under(trail.roots[j], a) !in files && Under(trail.roots[j], b) !in files
    ensures Find(trail, files, [a, b]).Some? ==>
              exists j :: 0 <= j < |trail.roots|
                && (Find(trail, files, [a, b]).value == Under(trail.roots[j], a)
                    || Find(trail, files, [a, b]).value == Under(trail.roots[j], b))
  {
    var cs := [a, b];
    var r := Find(trail, files, cs);
    if r.Some? {
      var i, j :| FirstHit(trail.roots, files, cs, i, j) && r.value == Under(trail.roots[j], cs[i]);
      assert i == 0 || i == 1;
    } else {
      forall j | 0 <= j < |trail.roots| ensures Under(trail.roots[j], a) !in files && Under(trail.roots[j], b) !in files {
        assert !Hit(trail.roots, files, cs, 0, j) && !Hit(trail.roots, files, cs, 1, j);
      }
    }
  }
}
