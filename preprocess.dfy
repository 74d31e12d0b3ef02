/**
 * The peak work of the preprocessor (01_preprocess/src/preprocess.c): the
 * filter that strips unwanted (mz, I) pairs from a scan's peak list, the
 * table of the n highest peaks across scans, and the acceptance of scans
 * while the file is read (right scan type, every other scan when asked,
 * time and number window, renumbering).
 *
 * A peak list is the sequence of its decoded pairs; the packed buffer holds
 * 2*size bytes per pair, size being 4 or 8 by the precision attribute.
 */
module Preprocess {
  import opened Common
  import opened MzXml

  const SCAN_DIST: int := 20
  const MZ_DIST: real := 0.05

  datatype Pair = Pair(mz: real, intensity: real)

  /** The filter window: min_I, min_mz and max_mz. */
  datatype Limits = Limits(minI: real, minMz: real, maxMz: real)

  // ----- strip_peaks -----

  predicate Keep(p: Pair, lim: Limits) {
    p.intensity > lim.minI && p.mz > lim.minMz && p.mz < lim.maxMz
  }

  /** The pairs of `ps` that are kept, in their order. */
  function Filter(ps: seq<Pair>, lim: Limits): seq<Pair> {
    if |ps| == 0 then []
    else Filter(ps[..|ps| - 1], lim) + (if Keep(ps[|ps| - 1], lim) then [ps[|ps| - 1]] else [])
  }

  /** A pair is kept exactly when it is in the list and inside the window. */
  lemma {:induction false} FilterMembers(ps: seq<Pair>, lim: Limits)
    ensures forall p :: p in Filter(ps, lim) <==> p in ps && Keep(p, lim)
    ensures |Filter(ps, lim)| <= |ps|
  {
    if |ps| > 0 {
      FilterMembers(ps[..|ps| - 1], lim);
      assert ps == ps[..|ps| - 1] + [ps[|ps| - 1]];
    }
  }

  /**
   * Filtering commutes with concatenation: kept pairs keep their relative
   * order, those of an earlier part coming first.
   */
  lemma {:induction false} FilterAppend(a: seq<Pair>, b: seq<Pair>, lim: Limits)
    ensures Filter(a + b, lim) == Filter(a, lim) + Filter(b, lim)
    decreases |b|
  {
    if |b| == 0 {
      assert a + b == a;
    } else {
      var b' := b[..|b| - 1];
      assert (a + b)[..|a + b| - 1] == a + b';
      FilterAppend(a, b', lim);
    }
  }

  /** The result of strip_peaks: the new list, its count and its byte length. */
  datatype Stripped = Stripped(peaks: seq<Pair>, count: nat, length: nat)

  /**
   * strip_peaks: copies the pairs with I > min_I and min_mz < mz < max_mz,
   * in order, to a new buffer, and returns their number together with the
   * new byte length.  A precision whose eighth, rounded toward zero, is
   * neither 4 nor 8 fails the assertion (None), so 32-39 and 64-71 pass.  For a negative precision C's truncating division
   * and Dafny's differ, but neither gives 4 or 8.
   */
  method StripPeaks(ps: seq<Pair>, precision: int, lim: Limits) returns (r: Option<Stripped>)
    ensures r.None? <==> precision / 8 != 4 && precision / 8 != 8
    ensures r.Some? ==> r.value.peaks == Filter(ps, lim) && r.value.count == |r.value.peaks|
    ensures r.Some? ==> r.value.length == 2 * (precision / 8) * r.value.count
  {
    var size := precision / 8;
    if size != 4 && size != 8 {
      return None;
    }
    var out := new Pair[|ps|];
    var w := 0;
    var i := 0;
    while i < |ps|
      invariant 0 <= i <= |ps| && 0 <= w <= i
      invariant out[..w] == Filter(ps[..i], lim)
    {
      assert ps[..i + 1][..i] == ps[..i];
      if ps[i].intensity > lim.minI && ps[i].mz > lim.minMz && ps[i].mz < lim.maxMz {
        out[w] := ps[i];
        w := w + 1;
      }
      i := i + 1;
    }
    assert ps[..i] == ps;
    var length := if size == 4 then 8 * w else 16 * w;
    return Some(Stripped(out[..w], w, length));
  }

  // ----- find_highest_peaks -----

  /** An entry of the table of highest peaks. */
  datatype Peak = Peak(scanNum: int, rt: real, mz: real, intensity: real)

  /** compare_I_peak: orders peaks by decreasing intensity. */
  function ComparePeakI(p: Peak, q: Peak): (c: int)
    ensures c == -1 <==> p.intensity > q.intensity
    ensures c == 1 <==> p.intensity < q.intensity
    ensures c == 0 <==> p.intensity == q.intensity
  {
    if q.intensity < p.intensity then -1 else if q.intensity > p.intensity then 1 else 0
  }

  predicate SortedDesc(s: seq<Peak>) {
    forall i, j :: 0 <= i < j < |s| ==> s[i].intensity >= s[j].intensity
  }

  function Abs(x: int): nat { if x < 0 then -x else x }

  function AbsReal(x: real): real { if x < 0.0 then -x else x }

  /** C's conversion of a double to int, which truncates toward zero. */
  function Trunc(x: real): int {
    if x >= 0.0 then x.Floor else -((-x).Floor)
  }

  /**
   * The neighbour test as written: `abs` takes an int, so the m/z
   * difference is truncated toward zero before it is compared with 0.05.
   */
  predicate NearAsWritten(p: Peak, q: Peak) {
    Abs(p.scanNum - q.scanNum) < SCAN_DIST && (Abs(Trunc(p.mz - q.mz)) as real) < MZ_DIST
  }

  /** The neighbour test as meant: fewer than 20 scans and less than 0.05 m/z apart. */
  predicate Near(p: Peak, q: Peak) {
    Abs(p.scanNum - q.scanNum) < SCAN_DIST && AbsReal(p.mz - q.mz) < MZ_DIST
  }

  /** As written, any two peaks less than a whole m/z apart count as near. */
  lemma NearAsWrittenIsUnitWide(p: Peak, q: Peak)
    ensures NearAsWritten(p, q) <==> Abs(p.scanNum - q.scanNum) < SCAN_DIST && -1.0 < p.mz - q.mz < 1.0
  {
    var d := p.mz - q.mz;
    if 0.0 <= d < 1.0 {
      assert d.Floor == 0;
    } else if -1.0 < d < 0.0 {
      assert (-d).Floor == 0;
    } else if d >= 1.0 {
      assert d.Floor >= 1;
    } else {
      assert (-d).Floor >= 1;
    }
  }

  /** Two peaks half an m/z apart in the same scan: near as written, not as meant. */
  lemma NearAsWrittenTooWide()
    ensures var p, q := Peak(1, 0.0, 100.5, 1.0), Peak(1, 0.0, 100.0, 1.0);
      NearAsWritten(p, q) && !Near(p, q)
  {
    var p, q := Peak(1, 0.0, 100.5, 1.0), Peak(1, 0.0, 100.0, 1.0);
    NearAsWrittenIsUnitWide(p, q);
  }

  /** The meant test is symmetric and only admits peaks within 0.05 m/z. */
  lemma NearIsTight(p: Peak, q: Peak)
    ensures Near(p, q) <==> Near(q, p)
    ensures Near(p, q) ==> -MZ_DIST < p.mz - q.mz < MZ_DIST && Abs(p.scanNum - q.scanNum) < SCAN_DIST
  {
  }

  /** Pair `i` is not below either neighbour in the list. */
  predicate LocalMax(ps: seq<Pair>, i: int)
    requires 0 <= i < |ps|
  {
    (i == 0 || ps[i].intensity >= ps[i - 1].intensity) &&
    (i == |ps| - 1 || ps[i].intensity >= ps[i + 1].intensity)
  }

  /** The first entry among the top `n` near `c`, or n when none is. */
  function FirstNear(t: seq<Peak>, c: Peak): (j: nat)
    ensures j <= |t|
    ensures j < |t| ==> Near(t[j], c)
    ensures forall k :: 0 <= k < j ==> !Near(t[k], c)
  {
    if |t| == 0 then 0
    else if Near(t[0], c) then 0
    else 1 + FirstNear(t[1..], c)
  }

  /**
   * The first `m` entries are in decreasing order of intensity, except
   * that the entry at `k` may be above those in front of it.
   */
  predicate InOrderBut(s: seq<Peak>, k: nat, m: nat)
    requires m <= |s|
  {
    forall i, j :: 0 <= i < j < m && j != k ==> s[i].intensity >= s[j].intensity
  }

  /** Exchanging the entry at k with the lower one in front of it moves the exception forward. */
  lemma SiftStep(s: seq<Peak>, k: nat, m: nat)
    requires 0 < k < m <= |s| && InOrderBut(s, k, m) && s[k - 1].intensity < s[k].intensity
    ensures var t := s[k - 1 := s[k]][k := s[k - 1]];
      InOrderBut(t, k - 1, m) && multiset(t[..m]) == multiset(s[..m]) && t[m..] == s[m..]
  {
    var t := s[k - 1 := s[k]][k := s[k - 1]];
    assert t[..m] == s[..m][k - 1 := s[k]][k := s[k - 1]];
  }

  /** With the exception no longer above its predecessor, the entries are in order. */
  lemma SiftDone(s: seq<Peak>, k: nat, m: nat)
    requires k < m <= |s| && InOrderBut(s, k, m) && (k == 0 || s[k - 1].intensity >= s[k].intensity)
    ensures SortedDesc(s[..m])
  {
    forall i, j | 0 <= i < j < m
      ensures s[i].intensity >= s[j].intensity
    {
      if j == k && i < k - 1 {
        assert s[i].intensity >= s[k - 1].intensity;
      }
    }
  }

  /**
   * Moves the entry at `k0` toward the front until the first `m` entries
   * are in decreasing order of intensity.  qsort with compare_I_peak may
   * order equal intensities otherwise; what both promise is stated:
   * sorted, and the same entries.
   */
  method SiftUp(table: array<Peak>, k0: nat, m: nat)
    requires k0 < m <= table.Length && InOrderBut(table[..], k0, m)
    modifies table
    ensures SortedDesc(table[..m])
    ensures multiset(table[..m]) == multiset(old(table[..m]))
    ensures table[m..] == old(table[m..])
  {
    var k := k0;
    while k > 0 && table[k - 1].intensity < table[k].intensity
      invariant 0 <= k <= k0 && InOrderBut(table[..], k, m)
      invariant multiset(table[..m]) == multiset(old(table[..m]))
      invariant table[m..] == old(table[m..])
    {
      ghost var before := table[..];
      table[k - 1], table[k] := table[k], table[k - 1];
      assert table[..] == before[k - 1 := before[k]][k := before[k - 1]];
      SiftStep(before, k, m);
      k := k - 1;
    }
    SiftDone(table[..], k, m);
  }

  /** The search for a near entry among the first `n`. */
  method FindNear(table: array<Peak>, n: nat, c: Peak) returns (j: nat)
    requires n <= table.Length
    ensures j == FirstNear(table[..n], c)
  {
    j := 0;
    while j < n
      invariant 0 <= j <= n
      invariant forall k :: 0 <= k < j ==> !Near(table[k], c)
    {
      if Abs(table[j].scanNum - c.scanNum) < SCAN_DIST && AbsReal(table[j].mz - c.mz) < MZ_DIST {
        break;
      }
      j := j + 1;
    }
    assert forall k :: 0 <= k < j ==> !Near(table[..n][k], c);
  }

  /**
   * One candidate peak offered to the table of the `n` highest peaks,
   * whose spare last slot is `table[n]`: below the lowest entry it is
   * ignored; when an entry is near it, that entry is replaced if it is
   * lower, and nothing is inserted; otherwise it is written to the spare
   * slot and the n+1 entries are sorted by decreasing intensity.
   */
  method Offer(table: array<Peak>, n: nat, c: Peak)
    requires 0 < n && table.Length == n + 1 && SortedDesc(table[..n])
    modifies table
    ensures SortedDesc(table[..n])
    ensures c.intensity < old(table[n - 1].intensity) ==> table[..] == old(table[..])
    ensures c.intensity >= old(table[n - 1].intensity) && FirstNear(old(table[..n]), c) < n ==>
      var j := FirstNear(old(table[..n]), c);
      table[n] == old(table[n]) &&
      if old(table[j].intensity) < c.intensity
      then multiset(table[..n]) == multiset(old(table[..n])[j := c])
      else table[..] == old(table[..])
    ensures c.intensity >= old(table[n - 1].intensity) && FirstNear(old(table[..n]), c) == n ==>
      SortedDesc(table[..n + 1]) && multiset(table[..n + 1]) == multiset(old(table[..n]) + [c])
    ensures forall e :: e in table[..] ==> e in old(table[..]) || e == c
  {
    if c.intensity < table[n - 1].intensity {
      return;
    }
    ghost var t := table[..];
    var j := FindNear(table, n, c);
    if j < n {
      if table[j].intensity < c.intensity {
        Replace(table, n, j, c);
      }
      return;
    }
    Insert(table, n, c);
  }

  /** No entry is near `c`: it takes the spare slot and the n+1 entries are sorted. */
  method Insert(table: array<Peak>, n: nat, c: Peak)
    requires table.Length == n + 1 && SortedDesc(table[..n])
    modifies table
    ensures SortedDesc(table[..n + 1]) && multiset(table[..n + 1]) == multiset(old(table[..n]) + [c])
    ensures forall e :: e in table[..] ==> e in old(table[..]) || e == c
  {
    ghost var t := table[..];
    table[n] := c;
    SortedInOrderBut(t, n);
    PlacedInOrder(t, n, n + 1, c);
    assert table[..] == t[n := c];
    SiftUp(table, n, n + 1);
    PlacedProvenance(t, table[..], n, n + 1, c);
  }

  /** The near entry `j` is lower than `c`: it is replaced and the n entries re-sorted. */
  method Replace(table: array<Peak>, n: nat, j: nat, c: Peak)
    requires j < n && table.Length == n + 1 && SortedDesc(table[..n]) && table[j].intensity < c.intensity
    modifies table
    ensures SortedDesc(table[..n]) && table[n] == old(table[n])
    ensures multiset(table[..n]) == multiset(old(table[..n])[j := c])
    ensures forall e :: e in table[..] ==> e in old(table[..]) || e == c
  {
    ghost var t := table[..];
    table[j] := c;
    SortedInOrderBut(t, n);
    PlacedInOrder(t, j, n, c);
    assert table[..] == t[j := c];
    SiftUp(table, j, n);
    PlacedProvenance(t, table[..], j, n, c);
  }

  /** Sorted first `n` entries are in order except at any one of the first n+1. */
  lemma SortedInOrderBut(t: seq<Peak>, n: nat)
    requires n < |t| && SortedDesc(t[..n])
    ensures InOrderBut(t, n, n + 1)
    ensures forall k: nat :: InOrderBut(t, k, n)
  {
    assert forall i :: 0 <= i < n ==> t[..n][i] == t[i];
  }

  /**
   * Writing `c` at `k` of a table whose first `m` entries are in order
   * except at `k`, where `c` is above the entry it overwrites (or `k` is
   * the last of them), keeps them in order except at `k`.
   */
  lemma PlacedInOrder(t: seq<Peak>, k: nat, m: nat, c: Peak)
    requires k < m <= |t| && InOrderBut(t, k, m) && (k == m - 1 || t[k].intensity < c.intensity)
    ensures InOrderBut(t[k := c], k, m)
  {
  }

  /**
   * After the sorting of the first `m` entries of `t` with `c` written at
   * `k`, those entries are a permutation of the overwritten ones and `c`,
   * the rest is as before, and every entry was in `t` or is `c`.
   */
  lemma PlacedProvenance(t: seq<Peak>, after: seq<Peak>, k: nat, m: nat, c: Peak)
    requires k < m <= |t| == |after|
    requires multiset(after[..m]) == multiset(t[k := c][..m]) && after[m..] == t[k := c][m..]
    ensures multiset(after[..m]) == multiset(t[..m][k := c])
    ensures k == m - 1 ==> multiset(after[..m]) == multiset(t[..k] + [c])
    ensures m < |t| ==> after[m] == t[m]
    ensures forall e :: e in after ==> e in t || e == c
  {
    var u := t[k := c];
    assert u[..m] == t[..m][k := c];
    if k == m - 1 {
      assert u[..m] == t[..k] + [c];
    }
    assert after == after[..m] + after[m..];
    forall e | e in after
      ensures e in t || e == c
    {
      var i :| 0 <= i < |after| && after[i] == e;
      if i < m {
        assert e in multiset(after[..m]);
        assert e in multiset(u[..m]);
        assert e in u[..m];
      } else {
        assert e == u[i];
      }
      assert e in u;
      var i' :| 0 <= i' < |u| && u[i'] == e;
      if i' != k {
        assert t[i'] == e;
      }
    }
  }

  /** The peaks of the local maxima among the first `i` pairs of a scan. */
  function Candidates(ps: seq<Pair>, scanNum: int, rt: real, i: nat): set<Peak>
    requires i <= |ps|
  {
    set k | 0 <= k < i && LocalMax(ps, k) :: Peak(scanNum, rt, ps[k].mz, ps[k].intensity)
  }

  /**
   * find_highest_peaks on the pairs of one scan: every local intensity
   * maximum is offered to the table in list order.  The table stays
   * sorted, and every entry was in the table before or comes from a local
   * maximum of this scan.
   */
  method FindHighestPeaks(table: array<Peak>, n: nat, ps: seq<Pair>, scanNum: int, rt: real)
    requires 0 < n && table.Length == n + 1 && SortedDesc(table[..n])
    modifies table
    ensures SortedDesc(table[..n])
    ensures forall e :: e in table[..] ==> e in old(table[..]) || e in Candidates(ps, scanNum, rt, |ps|)
  {
    var i := 0;
    while i < |ps|
      invariant 0 <= i <= |ps| && SortedDesc(table[..n])
      invariant forall e :: e in table[..] ==> e in old(table[..]) || e in Candidates(ps, scanNum, rt, i)
    {
      if i > 0 && ps[i].intensity < ps[i - 1].intensity {
        CandidatesGrow(ps, scanNum, rt, i);
        i := i + 1;
        continue;
      }
      if i < |ps| - 1 && ps[i].intensity < ps[i + 1].intensity {
        CandidatesGrow(ps, scanNum, rt, i);
        i := i + 1;
        continue;
      }
      var c := Peak(scanNum, rt, ps[i].mz, ps[i].intensity);
      CandidatesGrow(ps, scanNum, rt, i);
      assert c in Candidates(ps, scanNum, rt, i + 1);
      Offer(table, n, c);
      i := i + 1;
    }
  }

  lemma CandidatesGrow(ps: seq<Pair>, scanNum: int, rt: real, i: nat)
    requires i < |ps|
    ensures Candidates(ps, scanNum, rt, i) <= Candidates(ps, scanNum, rt, i + 1)
    ensures LocalMax(ps, i) ==> Peak(scanNum, rt, ps[i].mz, ps[i].intensity) in Candidates(ps, scanNum, rt, i + 1)
  {
  }

  // ----- scan acceptance in sax_cb -----

  /** The even/odd selection: NEVER skips no scan, YES skips the next one, NO keeps it. */
  datatype Skip = Never | No | Yes

  /** The selection state after one scan of the right type. */
  function NextSkip(s: Skip): Skip {
    match s
    case Yes => No
    case No => Yes
    case Never => Never
  }

  /** The selection state after `k` scans of the right type. */
  function SkipAfter(s: Skip, k: nat): Skip {
    if k == 0 then s else NextSkip(SkipAfter(s, k - 1))
  }

  /**
   * With the selection on, the scans of the right type are let through
   * alternately: scan k (from 0) meets YES exactly when k is even and
   * the selection started at YES, or k is odd and it started at NO.
   */
  lemma {:induction false} SkipAlternates(s: Skip, k: nat)
    requires s != Never
    ensures SkipAfter(s, k) != Never
    ensures SkipAfter(s, k) == Yes <==> (s == Yes) == (k % 2 == 0)
  {
    if k > 0 {
      SkipAlternates(s, k - 1);
      assert (k - 1) % 2 == 0 <==> k % 2 == 1;
    }
  }

  /** With the selection off, no scan is ever skipped. */
  lemma {:induction false} NeverSkips(k: nat)
    ensures SkipAfter(Never, k) == Never
  {
    if k > 0 {
      NeverSkips(k - 1);
    }
  }

  /** atoi's int stored into an unsigned int: taken modulo 2^32. */
  function Unsigned32(v: int): nat {
    v % 0x1_0000_0000
  }

  /**
   * The scan-opening branch of sax_cb with its state: the global `skip`
   * and the static counter `num`, and the parameters of the run.
   */
  class ScanFilter {
    var skip: Skip
    var num: int
    const scanType: string
    const minT: real
    const maxT: real
    const minNum: nat
    const maxNum: nat
    const renumber: bool

    constructor (skip: Skip, scanType: string, minT: real, maxT: real, minNum: nat, maxNum: nat, renumber: bool)
      ensures this.skip == skip && num == 0 && this.scanType == scanType && this.renumber == renumber
      ensures this.minT == minT && this.maxT == maxT && this.minNum == minNum && this.maxNum == maxNum
    {
      this.skip, num := skip, 0;
      this.scanType, this.minT, this.maxT := scanType, minT, maxT;
      this.minNum, this.maxNum, this.renumber := minNum, maxNum, renumber;
    }

    /** The retention time and scan number lie in the window of the run. */
    predicate InWindow(t: real, scanNum: nat)
      reads this
    {
      minT <= t <= maxT && minNum <= scanNum <= maxNum
    }

    /**
     * A scan element opens with the given scanType, num and retentionTime
     * attributes.  A scan of another type is rejected and leaves the state
     * alone.  Otherwise the selection steps; a scan met by YES is
     * rejected; the others are kept when inside the window, and a kept
     * scan gets the next number when renumbering.
     */
    method OpenScan(typeAttr: string, numAttr: int, rtAttr: string) returns (retain: bool, newNum: Option<int>)
      modifies this
      ensures typeAttr != scanType ==> !retain && newNum == None && skip == old(skip) && num == old(num)
      ensures typeAttr == scanType ==> skip == NextSkip(old(skip))
      ensures retain <==> typeAttr == scanType && old(skip) != Yes && InWindow(Duration(rtAttr), Unsigned32(numAttr))
      ensures num == old(num) + (if retain && renumber then 1 else 0)
      ensures newNum == if retain && renumber then Some(num) else None
    {
      if typeAttr != scanType {
        return false, None;
      }
      if skip == Yes {
        skip := No;
        return false, None;
      } else if skip == No {
        skip := Yes;
      }
      newNum := None;
      var scanNum := Unsigned32(numAttr);
      var t := XsDurationToS(rtAttr);
      if t < minT || t > maxT || scanNum < minNum || scanNum > maxNum {
        return false, None;
      }
      if renumber {
        num := num + 1;
        newNum := Some(num);
      }
      return true, newNum;
    }
  }
}
