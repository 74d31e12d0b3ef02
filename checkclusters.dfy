/**
 * The orphan check on the output of the clusterer (clustering/checkclusters.py):
 * a point of a cluster file is an orphan when no other point of the same
 * file lies within three scans and 0.05 in m/z of it.
 */
module CheckClusters {
  /** A point of a cluster file: its scan number and its m/z. */
  datatype Pt = Pt(scan: int, mz: real)

  function AbsInt(x: int): int { if x < 0 then -x else x }

  function AbsReal(x: real): real { if x < 0.0 then -x else x }

  /** Two points are near when they are at most 3 scans and 0.05 in m/z apart. */
  predicate Near(p: Pt, q: Pt) {
    AbsInt(p.scan - q.scan) <= 3 && AbsReal(p.mz - q.mz) <= 0.05
  }

  /** Nearness does not depend on the order of the two points. */
  lemma NearSymmetric(p: Pt, q: Pt)
    ensures Near(p, q) <==> Near(q, p)
  {
  }

  /** Point `i` has a near point at another index. */
  predicate HasNeighbour(pts: seq<Pt>, i: int)
    requires 0 <= i < |pts|
  {
    exists j :: 0 <= j < |pts| && j != i && Near(pts[i], pts[j])
  }

  /** A near pair makes both of its points non-orphans. */
  lemma PairMarksBoth(pts: seq<Pt>, i: nat, j: nat)
    requires i < |pts| && j < |pts| && i != j && Near(pts[i], pts[j])
    ensures HasNeighbour(pts, i) && HasNeighbour(pts, j)
  {
    NearSymmetric(pts[i], pts[j]);
    assert Near(pts[j], pts[i]);
  }

  /**
   * The marking loops: every point starts not ok; for each point not yet
   * ok, every other near point marks both ends ok.  The result is that a
   * point is ok exactly when it has a near point, the same marking the
   * loops give without skipping the points already ok.
   */
  method MarkOk(pts: seq<Pt>) returns (ok: seq<bool>)
    ensures |ok| == |pts|
    ensures forall i :: 0 <= i < |pts| ==> (ok[i] <==> HasNeighbour(pts, i))
  {
    var marks := new bool[|pts|](_ => false);
    var i1 := 0;
    while i1 < |pts|
      invariant 0 <= i1 <= |pts|
      invariant forall k :: 0 <= k < |pts| && marks[k] ==> HasNeighbour(pts, k)
      invariant forall k :: 0 <= k < i1 ==> (marks[k] <==> HasNeighbour(pts, k))
    {
      if !marks[i1] {
        var i2 := 0;
        while i2 < |pts|
          invariant 0 <= i2 <= |pts|
          invariant forall k :: 0 <= k < |pts| && marks[k] ==> HasNeighbour(pts, k)
          invariant forall k :: 0 <= k < i1 ==> (marks[k] <==> HasNeighbour(pts, k))
          invariant (exists j :: 0 <= j < i2 && j != i1 && Near(pts[i1], pts[j])) ==> marks[i1]
        {
          if i1 != i2 && Near(pts[i1], pts[i2]) {
            PairMarksBoth(pts, i1, i2);
            marks[i1] := true;
            marks[i2] := true;
          }
          i2 := i2 + 1;
        }
      }
      i1 := i1 + 1;
    }
    ok := marks[..];
  }

  /** The points without a near point among the first `k`, in file order. */
  function Orphans(pts: seq<Pt>, k: nat): seq<Pt>
    requires k <= |pts|
  {
    if k == 0 then []
    else Orphans(pts, k - 1) + (if HasNeighbour(pts, k - 1) then [] else [pts[k - 1]])
  }

  /** A point is reported exactly when it occurs at an index without a near point. */
  lemma {:induction false} OrphansMembers(pts: seq<Pt>, k: nat)
    requires k <= |pts|
    ensures forall p :: p in Orphans(pts, k) <==> exists i :: 0 <= i < k && pts[i] == p && !HasNeighbour(pts, i)
  {
    if k > 0 {
      OrphansMembers(pts, k - 1);
    }
  }

  /**
   * One cluster file: the points are marked and the ones not ok are
   * reported, in file order.
   */
  method CheckFile(pts: seq<Pt>) returns (orphans: seq<Pt>)
    ensures orphans == Orphans(pts, |pts|)
  {
    var ok := MarkOk(pts);
    orphans := [];
    var i := 0;
    while i < |pts|
      invariant 0 <= i <= |pts| && orphans == Orphans(pts, i)
    {
      if !ok[i] {
        orphans := orphans + [pts[i]];
      }
      i := i + 1;
    }
  }
}
