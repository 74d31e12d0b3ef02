/**
 * The spectrum store of the draft clusterer (02_clustering/other/cluster.c):
 * a binary search with five modes over a sorted array with unique keys, the
 * three comparators, and the growable arrays of scans and of points per
 * scan.
 *
 * A C array with `len` used and `alloc` allocated entries is a sequence
 * holding the used entries plus the allocation counter; `realloc` only
 * raises the counter.
 */
module Spectrum {
  import opened Common

  const RT_INIT: nat := 200
  const RT_INC: nat := 100
  const PT_INIT: nat := 2000
  const PT_INC: nat := 1000

  /** A point of a scan; `flag` is the cluster pointer, None for NULL. */
  datatype SPoint = SPoint(mz: real, intensity: real, flag: Option<nat>)

  /**
   * A scan: its retention time, the indices of its lowest and highest
   * neighbouring scans (None for NULL), its points and the number of
   * points allocated.
   */
  datatype Scan = Scan(rt: real, loNb: Option<nat>, hiNb: Option<nat>, points: seq<SPoint>, alloc: nat)

  /** Three-way comparison shared by compPoint, compScan and compRT. */
  function Compare(a: real, b: real): (c: int)
    ensures c == 1 <==> a > b
    ensures c == -1 <==> a < b
    ensures c == 0 <==> a == b
  {
    if a > b then 1 else if a < b then -1 else 0
  }

  /** compPoint: orders points by m/z. */
  function CompPoint(p: SPoint, q: SPoint): (c: int)
    ensures (c == 1 <==> p.mz > q.mz) && (c == -1 <==> p.mz < q.mz) && (c == 0 <==> p.mz == q.mz)
  {
    Compare(p.mz, q.mz)
  }

  /** compScan: orders scans by retention time. */
  function CompScan(s: Scan, t: Scan): (c: int)
    ensures (c == 1 <==> s.rt > t.rt) && (c == -1 <==> s.rt < t.rt) && (c == 0 <==> s.rt == t.rt)
  {
    Compare(s.rt, t.rt)
  }

  /** compRT: compares a retention time with the time of a scan. */
  function CompRT(key: real, s: Scan): (c: int)
    ensures (c == 1 <==> key > s.rt) && (c == -1 <==> key < s.rt) && (c == 0 <==> key == s.rt)
  {
    Compare(key, s.rt)
  }

  predicate StrictlySorted(keys: seq<real>) {
    forall i, j :: 0 <= i < j < |keys| ==> keys[i] < keys[j]
  }

  /**
   * What an element must satisfy in each mode of bsearch2: 2 strictly
   * greater, 1 greater or equal, -1 less or equal, -2 strictly less, and
   * any other mode (0 in particular) equal.
   */
  predicate Matches(k: real, key: real, mode: int) {
    if mode == 2 then k > key
    else if mode == 1 then k >= key
    else if mode == -1 then k <= key
    else if mode == -2 then k < key
    else k == key
  }

  /**
   * bsearch2 over the keys of a sorted array with unique keys.  Modes 1 and
   * 2 find the smallest matching element, modes -1 and -2 the largest, and
   * every other mode the equal one; None (NULL) when no element matches.
   */
  method BSearch2(key: real, keys: seq<real>, mode: int) returns (r: Option<nat>)
    requires StrictlySorted(keys)
    ensures r.Some? ==> r.value < |keys| && Matches(keys[r.value], key, mode)
    ensures r.None? <==> forall i :: 0 <= i < |keys| ==> !Matches(keys[i], key, mode)
    ensures r.Some? && (mode == 1 || mode == 2) ==>
      forall j :: 0 <= j < r.value ==> !Matches(keys[j], key, mode)
    ensures r.Some? && (mode == -1 || mode == -2) ==>
      forall j :: r.value < j < |keys| ==> !Matches(keys[j], key, mode)
  {
    var lo, hi := 0, |keys| - 1;
    while hi >= lo
      invariant 0 <= lo <= hi + 1 <= |keys|
      invariant forall j :: 0 <= j < lo ==> keys[j] < key
      invariant forall j :: hi < j < |keys| ==> keys[j] > key
    {
      var mid := (lo + hi) / 2;
      var com := Compare(key, keys[mid]);
      if com < 0 {
        hi := mid - 1;
      } else if com > 0 {
        lo := mid + 1;
      } else {
        if mode == 2 {
          if mid >= |keys| - 1 { return None; }
          mid := mid + 1;
        } else if mode == -2 {
          if mid <= 0 { return None; }
          mid := mid - 1;
        }
        return Some(mid);
      }
    }
    if mode == 2 || mode == 1 {
      if lo >= |keys| { return None; }
      return Some(lo);
    } else if mode == -2 || mode == -1 {
      if hi < 0 { return None; }
      return Some(hi);
    }
    return None;
  }

  /** A scan's points fit its allocation, which grew from PT_INIT in steps of PT_INC. */
  predicate ScanOk(s: Scan) {
    |s.points| <= s.alloc && s.alloc >= PT_INIT && (s.alloc - PT_INIT) % PT_INC == 0
  }

  /** constructScan: an empty scan at `rt` with PT_INIT points allocated and no neighbours. */
  function ConstructScan(rt: real): (s: Scan)
    ensures s.rt == rt && s.points == [] && s.alloc == PT_INIT
    ensures s.loNb == None && s.hiNb == None
    ensures ScanOk(s)
  {
    Scan(rt, None, None, [], PT_INIT)
  }

  /**
   * addpointtoScan: the point (mz, I, NULL) is appended; the allocation
   * grows by PT_INC exactly when the scan is full.
   */
  function AddPointToScan(s: Scan, mz: real, intensity: real): (r: Scan)
    ensures r.points == s.points + [SPoint(mz, intensity, None)]
    ensures |r.points| == |s.points| + 1 && r.points[|s.points|].flag == None
    ensures r.rt == s.rt && r.loNb == s.loNb && r.hiNb == s.hiNb
    ensures r.alloc == if |s.points| == s.alloc then s.alloc + PT_INC else s.alloc
    ensures ScanOk(s) ==> ScanOk(r)
  {
    var alloc := if |s.points| == s.alloc then s.alloc + PT_INC else s.alloc;
    s.(points := s.points + [SPoint(mz, intensity, None)], alloc := alloc)
  }

  /** Index of the last scan at `rt`, or -1 when there is none. */
  function FindRt(scans: seq<Scan>, rt: real): (a: int)
    ensures -1 <= a < |scans|
    ensures a >= 0 ==> scans[a].rt == rt
    ensures forall j :: a < j < |scans| ==> scans[j].rt != rt
  {
    if |scans| == 0 then -1
    else if scans[|scans| - 1].rt == rt then |scans| - 1
    else FindRt(scans[..|scans| - 1], rt)
  }

  /** The scans after addpointtoSpectrum(rt, mz, I). */
  function Added(scans: seq<Scan>, rt: real, mz: real, intensity: real): seq<Scan> {
    var a := FindRt(scans, rt);
    if a >= 0 then scans[a := AddPointToScan(scans[a], mz, intensity)]
    else scans + [AddPointToScan(ConstructScan(rt), mz, intensity)]
  }

  predicate UniqueRts(scans: seq<Scan>) {
    forall i, j :: 0 <= i < j < |scans| ==> scans[i].rt != scans[j].rt
  }

  function TotalPoints(scans: seq<Scan>): nat {
    if |scans| == 0 then 0 else TotalPoints(scans[..|scans| - 1]) + |scans[|scans| - 1].points|
  }

  /** Adding a point keeps the retention times of the scans unique. */
  lemma AddedKeepsRtsUnique(scans: seq<Scan>, rt: real, mz: real, intensity: real)
    requires UniqueRts(scans)
    ensures UniqueRts(Added(scans, rt, mz, intensity))
  {
  }

  /**
   * After adding, exactly one scan has the time `rt`, and the point is the
   * last of its points; every other scan is unchanged, and at most one scan
   * was created, at the end.
   */
  lemma AddedPlacesPoint(scans: seq<Scan>, rt: real, mz: real, intensity: real)
    requires UniqueRts(scans)
    ensures var t := Added(scans, rt, mz, intensity);
      (|t| == |scans| || |t| == |scans| + 1) &&
      exists a :: 0 <= a < |t| && t[a].rt == rt &&
        t[a].points == (if a < |scans| then scans[a].points else []) + [SPoint(mz, intensity, None)] &&
        forall j :: 0 <= j < |scans| && j != a ==> t[j] == scans[j]
  {
    var a := FindRt(scans, rt);
    var t := Added(scans, rt, mz, intensity);
    if a < 0 {
      assert t[|scans|].rt == rt;
    } else {
      assert t[a].rt == rt;
    }
  }

  lemma {:induction false} TotalPointsUpdate(scans: seq<Scan>, a: nat, s: Scan)
    requires a < |scans|
    ensures TotalPoints(scans[a := s]) == TotalPoints(scans) - |scans[a].points| + |s.points|
    decreases |scans|
  {
    var n := |scans| - 1;
    assert scans[a := s][..n] == if a < n then scans[..n][a := s] else scans[..n];
    if a < n {
      TotalPointsUpdate(scans[..n], a, s);
    }
  }

  /** addpointtoSpectrum adds exactly one point to the spectrum. */
  lemma AddedCountsOnePoint(scans: seq<Scan>, rt: real, mz: real, intensity: real)
    ensures TotalPoints(Added(scans, rt, mz, intensity)) == TotalPoints(scans) + 1
  {
    var a := FindRt(scans, rt);
    if a >= 0 {
      TotalPointsUpdate(scans, a, AddPointToScan(scans[a], mz, intensity));
    } else {
      var t := Added(scans, rt, mz, intensity);
      assert t[..|t| - 1] == scans;
    }
  }

  /** A spectrum: its scans and the number of scans allocated. */
  class Spectrum {
    var scans: seq<Scan>
    var alloc: nat

    /**
     * The scans fit the allocation, which grew from RT_INIT in steps of
     * RT_INC; every scan is well formed and no two share a time.
     */
    predicate Valid()
      reads this
    {
      |scans| <= alloc && alloc >= RT_INIT && (alloc - RT_INIT) % RT_INC == 0 &&
      (forall i :: 0 <= i < |scans| ==> ScanOk(scans[i])) &&
      UniqueRts(scans)
    }

    /** constructSpectrum: no scans, RT_INIT allocated. */
    constructor ()
      ensures Valid() && scans == [] && alloc == RT_INIT
    {
      scans, alloc := [], RT_INIT;
    }

    /**
     * addpointtoSpectrum: the scans are searched from the last backwards
     * for one at exactly `rt`; the point is appended to it, or to a new
     * scan created at the end (growing the allocation by RT_INC when full).
     */
    method AddPoint(rt: real, mz: real, intensity: real)
      requires Valid()
      modifies this
      ensures Valid()
      ensures scans == Added(old(scans), rt, mz, intensity)
      ensures alloc == if FindRt(old(scans), rt) < 0 && |old(scans)| == old(alloc)
        then old(alloc) + RT_INC else old(alloc)
    {
      var a := |scans| - 1;
      while a >= 0
        invariant -1 <= a < |scans|
        invariant forall j :: a < j < |scans| ==> scans[j].rt != rt
      {
        if rt == scans[a].rt {
          break;
        }
        a := a - 1;
      }
      assert a == FindRt(scans, rt);
      if a < 0 {
        if |scans| == alloc {
          alloc := alloc + RT_INC;
        }
        scans := scans + [ConstructScan(rt)];
        a := |scans| - 1;
      }
      scans := scans[a := AddPointToScan(scans[a], mz, intensity)];
    }
  }
}
