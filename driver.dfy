/**
 * The record loop of the streaming clusterer (clustering/clm_main.c).
 *
 * Records (retention time, m/z, intensity) arrive sorted by retention time.
 * Each record that parses and is intense enough is placed in the current row
 * of the point window; a new retention time opens a new row, stepping the
 * window up by a third when it is full and retiring stale colours from the
 * flag pool.  The new point joins the cluster of the first point within
 * MZ_DIST in the N_PREV previous rows; a second such point has its flag
 * overwritten with the first one's (a merge); with no neighbour the point
 * takes a fresh flag from the pool.
 */
module Driver {
  import opened Common
  import opened Flags
  import opened Points

  const MZ_DIST: real := 0.05
  const I_MIN: real := 4.0
  const N_SCANS: nat := 500
  const N_MZPOINTS: nat := 20000
  const N_FLAG: nat := 100000
  const N_PREV: nat := 3
  /** The window moves up by a third of its rows when it is full. */
  const RT_STEP: nat := N_SCANS / 3

  /** One line of the input table, parsed into (RT, m/z, intensity) or not. */
  datatype Line = Unparsed | Parsed(rt: real, mz: real, intensity: real)

  /** The state of the process: still running, or the exit code it stopped with. */
  datatype Status = Running | Exit(code: int)

  /** printcolor: prints a retired colour and reports success. */
  function PrintColor(f: Flag): int
  {
    0
  }

  // ---------------------------------------------------------------------
  // The neighbour search, as a specification

  /** The m/z band test of the search: within MZ_DIST of `mz` on either side. */
  predicate InBand(p: Point, mz: real)
  {
    -MZ_DIST <= p.mz - mz <= MZ_DIST
  }

  /**
   * The columns of `row`, from `b` on, that the search finds in band, in
   * order: it stops at the first empty point (m/z 0) and at the first point
   * above the band, and passes over points below the band.
   */
  function RowMatches(row: seq<Point>, mz: real, b: nat): (r: seq<nat>)
    ensures forall i :: 0 <= i < |r| ==> b <= r[i] < |row| && row[r[i]].mz != 0.0 && InBand(row[r[i]], mz)
    ensures forall i, j :: 0 <= i < j < |r| ==> r[i] < r[j]
    decreases |row| - b
  {
    if b >= |row| || row[b].mz == 0.0 then []
    else if row[b].mz - mz < -MZ_DIST then RowMatches(row, mz, b + 1)
    else if row[b].mz - mz > MZ_DIST then []
    else [b] + RowMatches(row, mz, b + 1)
  }

  /** The search of a row reaches column `x` from `b`: no column before it stops the scan. */
  ghost predicate Reaches(row: seq<Point>, mz: real, b: nat, x: nat)
  {
    b <= x < |row| && forall y :: b <= y < x ==> row[y].mz != 0.0 && row[y].mz - mz <= MZ_DIST
  }

  /**
   * A column is found exactly when the scan reaches it and it holds a
   * non-empty point in band.
   */
  lemma {:induction false} RowMatchesReached(row: seq<Point>, mz: real, b: nat)
    ensures forall x: nat :: x in RowMatches(row, mz, b) <==>
      Reaches(row, mz, b, x) && row[x].mz != 0.0 && InBand(row[x], mz)
    decreases |row| - b
  {
    if b < |row| && row[b].mz != 0.0 && row[b].mz - mz <= MZ_DIST {
      RowMatchesReached(row, mz, b + 1);
      forall x: nat | b < x
        ensures Reaches(row, mz, b, x) <==> Reaches(row, mz, b + 1, x)
      {
        if Reaches(row, mz, b + 1, x) {
          forall y | b <= y < x
            ensures row[y].mz != 0.0 && row[y].mz - mz <= MZ_DIST
          {
            if y > b {
              assert b + 1 <= y < x;
            }
          }
        }
      }
    } else {
      forall x: nat | Reaches(row, mz, b, x)
        ensures x == b
      {
      }
    }
  }

  /** The positions (a, b) of the columns `cols` of row `a`. */
  function InRow(a: nat, cols: seq<nat>): (r: seq<(nat, nat)>)
    ensures |r| == |cols| && forall i :: 0 <= i < |r| ==> r[i] == (a, cols[i])
  {
    seq(|cols|, i requires 0 <= i < |cols| => (a, cols[i]))
  }

  /**
   * The neighbours the search finds in rows `a` down to `low` (and never
   * below row 0), in search order.
   */
  function Found(m: PointMatrix, a: int, low: int, mz: real): (r: seq<(nat, nat)>)
    requires m.Valid() && a < m.dim1
    reads m, m.rows, m.block
    ensures forall i :: 0 <= i < |r| ==>
      low <= r[i].0 <= a && r[i].1 < m.dim2 && m.At(r[i].0, r[i].1).mz != 0.0 && InBand(m.At(r[i].0, r[i].1), mz)
    decreases a + 1
  {
    if a < 0 || a < low then []
    else InRow(a, RowMatches(m.Row(a), mz, 0)) + Found(m, a - 1, low, mz)
  }

  /** The neighbours of a point at row `scan` with the given m/z: the search order over the N_PREV rows above it. */
  function Neighbours(m: PointMatrix, scan: int, mz: real): (r: seq<(nat, nat)>)
    requires m.Valid() && scan <= m.dim1
    reads m, m.rows, m.block
    ensures forall i :: 0 <= i < |r| ==> scan - N_PREV <= r[i].0 < scan && r[i].1 < m.dim2
  {
    Found(m, scan - 1, scan - N_PREV, mz)
  }

  /** A point of the window that respects the placement rules: placed points carry a flag of the pool. */
  predicate Sound(p: Point)
  {
    (p.mz != 0.0 ==> p.flag.Some?) && (p.flag.Some? ==> p.flag.value < N_FLAG)
  }

  // ---------------------------------------------------------------------
  // The start of a new scan

  /** Whether a record opens a new scan: there is no current scan, or its RT differs. */
  predicate NewScan(current: Option<real>, rt: real)
  {
    current != Some(rt)
  }

  /** The same test as written, with -1 standing for "no scan yet". */
  predicate NewScanAsWritten(current: real, rt: real)
  {
    rt != current
  }

  /** The row index after a new scan opens: the next row, or the tail after a step. */
  function NextRow(scanIdx: int): (r: int)
    ensures 0 <= scanIdx <= N_SCANS ==> 0 <= r < N_SCANS
    ensures scanIdx + 1 < N_SCANS ==> r == scanIdx + 1
  {
    if scanIdx + 1 >= N_SCANS then N_SCANS - RT_STEP else scanIdx + 1
  }

  /**
   * The row a record is written to as the loop is written: a new scan
   * only when the RT differs from `current_RT`, where -1 stands for "no
   * scan yet".
   */
  function RowAsWritten(current: real, scanIdx: int, rt: real): int
  {
    if NewScanAsWritten(current, rt) then NextRow(scanIdx) else scanIdx
  }

  /**
   * Before the first record `scan_idx` is N_SCANS and `current_RT` is -1.
   * As written, a first record whose RT is -1 opens no scan and is written
   * to row N_SCANS, whose first point lies just past the block of the
   * window; every other first record lands inside the window.  With an
   * optional RT every first record opens a scan inside the window.
   */
  lemma SentinelFirstRecord()
    ensures RowAsWritten(-1.0, N_SCANS, -1.0) == N_SCANS
    ensures Offset(RowAsWritten(-1.0, N_SCANS, -1.0), 0, N_MZPOINTS) >= Cells(N_SCANS, N_MZPOINTS)
    ensures forall rt :: rt != -1.0 ==> 0 <= RowAsWritten(-1.0, N_SCANS, rt) < N_SCANS
    ensures forall rt :: NewScan(None, rt)
    ensures 0 <= NextRow(N_SCANS) < N_SCANS
  {
  }

  /** When every slot was last seen before `scan`, the recycling frees every slot. */
  lemma FlushFreesAll(s: seq<Flag>, scan: int)
    requires forall a :: 0 <= a < |s| ==> s[a].lastSeen < scan
    ensures forall i :: 0 <= i < |s| ==> Free(Recycled(s, Consolidate(s), scan, TopColor(s))[i])
  {
    var t := Consolidate(s);
    ConsolidateIsPerColorMax(s);
    forall i | 0 <= i < |s| && Active(s[i])
      ensures Recyclable(s[i], t, scan)
    {
      var c := s[i].color;
      assert ActiveColor(s, c);
      var b := FindColor(t, c);
      assert b < |t|;
      assert IsColorMax(s, t[b]);
    }
  }

  /**
   * When every slot was last seen before `scan`, the report names every
   * colour active in the pool, each exactly once.
   */
  lemma FlushReportsAll(s: seq<Flag>, scan: int)
    requires forall a :: 0 <= a < |s| ==> s[a].lastSeen < scan
    ensures var calls := RunOutput(Consolidate(s), scan, PrintColor).calls;
      (forall i, j :: 0 <= i < j < |calls| ==> calls[i].color != calls[j].color) &&
      forall c :: (exists e :: e in calls && e.color == c) <==> ActiveColor(s, c)
  {
    PrintColorNeverFails(Consolidate(s), scan);
    OutputOncePerStaleColor(s, scan, PrintColor);
  }

  /** PrintColor never fails, so a reporting run with it never fails. */
  lemma PrintColorNeverFails(t: seq<Flag>, scan: int)
    ensures !RunOutput(t, scan, PrintColor).failed
  {
    RunOutputReportsStale(t, scan, PrintColor);
  }

  /**
   * The pool after the search met neighbours whose flags are `fs`, in
   * search order: the first neighbour's slot is marked seen at scan `t`,
   * the second neighbour's slot is overwritten with it (the merge), and
   * the search never gets to any further neighbour.
   */
  function Join(s: seq<Flag>, fs: seq<nat>, t: int): (r: seq<Flag>)
    requires forall i :: 0 <= i < |fs| ==> fs[i] < |s|
    ensures |r| == |s|
    ensures |fs| >= 1 ==> r[fs[0]] == Flag(s[fs[0]].color, t)
    ensures |fs| >= 2 ==> r[fs[1]] == Flag(s[fs[0]].color, t)
    ensures forall i :: 0 <= i < |s| && (|fs| < 1 || i != fs[0]) && (|fs| < 2 || i != fs[1]) ==> r[i] == s[i]
  {
    if |fs| == 0 then s
    else
      var e := Flag(s[fs[0]].color, t);
      if |fs| == 1 then s[fs[0] := e] else s[fs[0] := e][fs[1] := e]
  }

  /** The pool after freshenFlags at `horizon`, which leaves it alone when the horizon is negative. */
  function Retired(s: seq<Flag>, horizon: int): (r: seq<Flag>)
    ensures |r| == |s|
  {
    if horizon < 0 then s else Recycled(s, Consolidate(s), horizon, TopColor(s))
  }

  /** The colours freshenFlags prints with printcolor at `horizon`: none when the horizon is negative. */
  function Reports(s: seq<Flag>, horizon: int): seq<Flag>
  {
    if horizon < 0 then [] else RunOutput(Consolidate(s), horizon, PrintColor).calls
  }

  /** A record the loop uses: it parsed, and its intensity is at least I_MIN. */
  predicate Accepted(line: Line)
  {
    line.Parsed? && !(line.intensity < I_MIN)
  }

  class Clusterer {
    /** `flags[N_FLAG]`: the pool of cluster identities. */
    const flags: array<Flag>
    /** `points`: the window of N_SCANS rows by N_MZPOINTS m/z slots. */
    const points: PointMatrix
    var scanIdx: int
    var mzIdx: int
    var currentFlag: int
    var totalScans: int
    /** `current_RT`, None before the first record. */
    var currentRT: Option<real>
    /** The retired colours printed so far, in order. */
    var output: seq<Flag>

    ghost predicate SlotsSeen()
      reads this, flags
    {
      forall i :: 0 <= i < flags.Length ==> flags[i].lastSeen <= totalScans
    }

    /** No slot of the pool is free. */
    ghost predicate Exhausted()
      reads this, flags
    {
      forall i :: 0 <= i < flags.Length ==> !Free(flags[i])
    }

    ghost predicate CellsSound()
      reads points, points.rows, points.block
    {
      points.Valid() && points.dim1 == N_SCANS && points.dim2 == N_MZPOINTS &&
      forall a, b :: 0 <= a < N_SCANS && 0 <= b < N_MZPOINTS ==> Sound(points.At(a, b))
    }

    ghost predicate Valid()
      reads this, flags, points, points.rows, points.block
    {
      flags.Length == N_FLAG && CellsSound() &&
      0 <= currentFlag < N_FLAG && 0 <= mzIdx <= N_MZPOINTS && totalScans >= 0 &&
      (currentRT.None? ==> scanIdx == N_SCANS && mzIdx == 0 && totalScans == 0) &&
      (currentRT.Some? ==> 0 <= scanIdx < N_SCANS && totalScans >= 1) &&
      SlotsSeen() && FreshCells()
    }

    /** The cells past the last point written are still empty: the rest of the current row and every later row. */
    ghost predicate FreshCells()
      reads this, points, points.rows, points.block
    {
      points.Valid() && points.dim1 == N_SCANS && points.dim2 == N_MZPOINTS &&
      forall a, b :: 0 <= a < N_SCANS && 0 <= b < N_MZPOINTS && (a > scanIdx || (a == scanIdx && b >= mzIdx)) ==>
        points.At(a, b) == ZERO
    }

    /**
     * The set-up of main: the matrix from Pointmatrix, and every flag given
     * its own index as colour and marked available.
     */
    constructor (m: PointMatrix)
      requires m.Valid() && m.dim1 == N_SCANS && m.dim2 == N_MZPOINTS
      requires forall a, b :: 0 <= a < N_SCANS && 0 <= b < N_MZPOINTS ==> m.At(a, b) == ZERO
      ensures Valid() && points == m && fresh(flags)
      ensures forall i :: 0 <= i < N_FLAG ==> flags[i] == Flag(i, AVAILABLE)
      ensures scanIdx == N_SCANS && mzIdx == 0 && currentFlag == 0 && totalScans == 0
      ensures currentRT == None && output == []
    {
      points := m;
      flags := new Flag[N_FLAG];
      scanIdx, mzIdx, currentFlag, totalScans := N_SCANS, 0, 0, 0;
      currentRT := None;
      output := [];
      new;
      var a := 0;
      while a < N_FLAG
        invariant 0 <= a <= N_FLAG
        invariant forall i :: 0 <= i < a ==> flags[i] == Flag(i, AVAILABLE)
        modifies flags
      {
        flags[a] := Flag(a, AVAILABLE);
        a := a + 1;
      }
    }

    /**
     * Lines 46-72, the first part of one line of the input: a line that
     * does not parse or whose intensity is below I_MIN is skipped; a new
     * retention time opens a scan (AdvanceScan); a record of the current
     * scan whose row already holds N_MZPOINTS points ends the process with
     * -3.  `place` says the record goes on to be placed (Place).
     */
    method Admit(line: Line) returns (status: Status, place: bool)
      requires Valid()
      modifies this, flags, points.block
      ensures Valid()
      ensures status == Exit(-3) <==> Accepted(line) && !NewScan(old(currentRT), line.rt) && old(mzIdx) >= N_MZPOINTS
      ensures status == Running || status == Exit(-3)
      ensures place <==> status == Running && Accepted(line)
      ensures place ==> currentRT.Some? && mzIdx < N_MZPOINTS
      ensures currentRT == if Accepted(line) then Some(line.rt) else old(currentRT)
      ensures totalScans == old(totalScans) + if Accepted(line) && NewScan(old(currentRT), line.rt) then 1 else 0
      ensures !(Accepted(line) && NewScan(old(currentRT), line.rt)) ==>
        unchanged(this) && flags[..] == old(flags[..]) && points.block[..] == old(points.block[..])
      ensures Accepted(line) && NewScan(old(currentRT), line.rt) ==>
        scanIdx == NextRow(old(scanIdx)) && mzIdx == 0 && currentFlag == old(currentFlag)
      ensures Accepted(line) && NewScan(old(currentRT), line.rt) && old(scanIdx) + 1 < N_SCANS ==>
        flags[..] == old(flags[..]) && points.block[..] == old(points.block[..]) && output == old(output)
      ensures Accepted(line) && NewScan(old(currentRT), line.rt) && old(scanIdx) + 1 >= N_SCANS ==>
        (forall a, b :: 0 <= a < N_SCANS - RT_STEP && 0 <= b < N_MZPOINTS ==>
          points.At(a, b) == old(points.At(a + RT_STEP, b))) &&
        (forall a, b :: N_SCANS - RT_STEP <= a < N_SCANS && 0 <= b < N_MZPOINTS ==> points.At(a, b) == ZERO) &&
        flags[..] == Retired(old(flags[..]), totalScans - N_PREV - 1) &&
        output == old(output) + Reports(old(flags[..]), totalScans - N_PREV - 1)
    {
      if !Accepted(line) {
        return Running, false;
      }
      if NewScan(currentRT, line.rt) {
        AdvanceScan(line.rt);
        return Running, true;
      }
      if mzIdx >= N_MZPOINTS {
        return Exit(-3), false;
      }
      return Running, true;
    }

    /**
     * After a record (mz, intensity) whose neighbours carry the flags `fs`
     * has been placed at column `col` of the current row: it carries the
     * flag of its first neighbour, or the flag
     * that was current (`from`) when it has none; the pool `pool` the
     * record met became Join of the neighbours' flags, or had the current
     * slot marked seen; -3 exactly when a fresh flag was needed and none is
     * free; otherwise the column moved on and, after a fresh flag, the next
     * free slot in round-robin order is current.
     */
    ghost predicate Placed(mz: real, intensity: real, col: int, pool: seq<Flag>, from: int, fs: seq<nat>, status: Status)
      reads this, flags, points, points.rows, points.block
    {
      points.Valid() && points.dim1 == N_SCANS && points.dim2 == N_MZPOINTS &&
      0 <= scanIdx < N_SCANS && 0 <= col < N_MZPOINTS && |pool| == N_FLAG && flags.Length == N_FLAG && 0 <= from < N_FLAG &&
      (forall i :: 0 <= i < |fs| ==> fs[i] < N_FLAG) &&
      var f := if |fs| >= 1 then fs[0] else from;
      points.At(scanIdx, col) == Point(mz, intensity, Some(f)) &&
      (|fs| >= 1 ==> flags[..] == Join(pool, fs, totalScans) && currentFlag == from) &&
      (|fs| == 0 ==> flags[..] == pool[f := Flag(pool[f].color, totalScans)]) &&
      (status == Exit(-3) <==> |fs| == 0 && Exhausted()) &&
      (status == Running ==> mzIdx == col + 1 && (|fs| == 0 ==> NextFree(from, currentFlag)))
    }

    /**
     * Lines 46-118, one line of the input: Admit, then Place when the
     * line is a record to keep.  A skipped line changes nothing; a record
     * of the current scan in a full row gives -3 and changes nothing; any
     * other -3 comes from a kept record that found the pool exhausted.
     */
    method Step(line: Line) returns (status: Status)
      requires Valid()
      modifies this, flags, points.block
      ensures status == Running || status == Exit(-3)
      ensures status == Running ==> Valid()
      ensures totalScans == old(totalScans) + if Accepted(line) && NewScan(old(currentRT), line.rt) then 1 else 0
      ensures currentRT == if Accepted(line) then Some(line.rt) else old(currentRT)
      ensures !Accepted(line) ==>
        status == Running && unchanged(this) && flags[..] == old(flags[..]) && points.block[..] == old(points.block[..])
      ensures Accepted(line) && !NewScan(old(currentRT), line.rt) && old(mzIdx) >= N_MZPOINTS ==>
        status == Exit(-3) && unchanged(this) && flags[..] == old(flags[..]) && points.block[..] == old(points.block[..])
      ensures status == Exit(-3) ==>
        Accepted(line) && ((!NewScan(old(currentRT), line.rt) && old(mzIdx) >= N_MZPOINTS) || Exhausted())
      ensures status == Running && Accepted(line) ==>
        mzIdx == (if NewScan(old(currentRT), line.rt) then 0 else old(mzIdx)) + 1 &&
        points.At(scanIdx, mzIdx - 1).mz == line.mz && points.At(scanIdx, mzIdx - 1).intensity == line.intensity
    {
      var place;
      status, place := Admit(line);
      if place {
        ghost var fs;
        status, fs := Place(line.mz, line.intensity);
      }
    }

    /**
     * Lines 44-119, the loop over the input from the state main sets up:
     * every line in turn (Step), stopping at the first -3; after the whole
     * input the scan count and the current RT are those of the input.
     */
    method Consume(lines: seq<Line>) returns (status: Status)
      requires Valid() && currentRT == None && totalScans == 0
      modifies this, flags, points.block
      ensures status == Running || status == Exit(-3)
      ensures status == Running ==> Valid() && totalScans == ScanCount(lines) && currentRT == LastRT(lines)
      ensures status == Exit(-3) ==> exists i :: 0 <= i < |lines| && Accepted(lines[i])
    {
      var i := 0;
      while i < |lines|
        invariant 0 <= i <= |lines|
        invariant Valid()
        invariant totalScans == ScanCount(lines[..i]) && currentRT == LastRT(lines[..i])
      {
        ScanCountStep(lines, i);
        status := Step(lines[i]);
        if status != Running {
          return;
        }
        i := i + 1;
      }
      assert lines[..i] == lines;
      status := Running;
    }

    /**
     * Line 121, after the last line: with the horizon 2 * N_PREV scans past
     * the last one, every colour still active is reported once and every
     * slot of the pool is freed.
     */
    method Flush() returns (ghost pool: seq<Flag>)
      requires Valid()
      modifies flags, this`output
      ensures pool == old(flags[..]) && |pool| == N_FLAG
      ensures forall i :: 0 <= i < N_FLAG ==> pool[i].lastSeen <= totalScans
      ensures forall i :: 0 <= i < N_FLAG ==> Free(flags[i])
      ensures var calls := RunOutput(Consolidate(pool), totalScans + 2 * N_PREV, PrintColor).calls;
        flags[..] == Recycled(pool, Consolidate(pool), totalScans + 2 * N_PREV, TopColor(pool)) &&
        output == old(output) + calls && |calls| <= |output| && output[|output| - |calls|..] == calls &&
        (forall i, j :: 0 <= i < j < |calls| ==> calls[i].color != calls[j].color) &&
        forall col :: (exists e :: e in calls && e.color == col) <==> ActiveColor(pool, col)
    {
      pool := flags[..];
      assert forall i :: 0 <= i < N_FLAG ==> pool[i].lastSeen <= totalScans;
      RetireFlags(totalScans + 2 * N_PREV);
      FlushFreesAll(pool, totalScans + 2 * N_PREV);
      FlushReportsAll(pool, totalScans + 2 * N_PREV);
      forall i | 0 <= i < N_FLAG
        ensures Free(flags[i])
      {
        assert flags[i] == flags[..][i];
      }
    }

    /**
     * The RT-change block: one more scan and the next row; when the window
     * is full it steps (StepWindow).
     */
    method AdvanceScan(rt: real)
      requires Valid() && NewScan(currentRT, rt)
      modifies this, flags, points.block
      ensures Valid()
      ensures totalScans == old(totalScans) + 1 && scanIdx == NextRow(old(scanIdx))
      ensures mzIdx == 0 && currentRT == Some(rt) && currentFlag == old(currentFlag)
      ensures old(scanIdx) + 1 < N_SCANS ==>
        flags[..] == old(flags[..]) && points.block[..] == old(points.block[..]) && output == old(output) &&
        forall a, b :: 0 <= a < N_SCANS && 0 <= b < N_MZPOINTS ==> points.At(a, b) == old(points.At(a, b))
      ensures old(scanIdx) + 1 >= N_SCANS ==>
        (forall a, b :: 0 <= a < N_SCANS - RT_STEP && 0 <= b < N_MZPOINTS ==>
          points.At(a, b) == old(points.At(a + RT_STEP, b))) &&
        (forall a, b :: N_SCANS - RT_STEP <= a < N_SCANS && 0 <= b < N_MZPOINTS ==> points.At(a, b) == ZERO)
      ensures old(scanIdx) + 1 >= N_SCANS ==>
        flags[..] == Retired(old(flags[..]), totalScans - N_PREV - 1) &&
        output == old(output) + Reports(old(flags[..]), totalScans - N_PREV - 1)
    {
      totalScans, scanIdx, mzIdx, currentRT := totalScans + 1, scanIdx + 1, 0, Some(rt);
      if scanIdx >= N_SCANS {
        StepWindow();
      }
    }

    /**
     * Lines 60-66: step the window by RT_STEP rows, move to the first row
     * after the kept ones, and retire stale colours.
     */
    method StepWindow()
      requires CellsSound() && flags.Length == N_FLAG && SlotsSeen() && totalScans >= 0
      modifies flags, points.block, this`output, this`scanIdx
      ensures CellsSound() && SlotsSeen() && FreshCells()
      ensures scanIdx == N_SCANS - RT_STEP
      ensures forall a, b :: 0 <= a < N_SCANS - RT_STEP && 0 <= b < N_MZPOINTS ==>
        points.At(a, b) == old(points.At(a + RT_STEP, b))
      ensures forall a, b :: N_SCANS - RT_STEP <= a < N_SCANS && 0 <= b < N_MZPOINTS ==> points.At(a, b) == ZERO
      ensures flags[..] == Retired(old(flags[..]), totalScans - N_PREV - 1)
      ensures output == old(output) + Reports(old(flags[..]), totalScans - N_PREV - 1)
    {
      StepCells();
      RetireFlags(totalScans - N_PREV - 1);
    }

    /** Lines 62-64: the window steps up by RT_STEP rows (it always can). */
    method StepCells()
      requires CellsSound()
      modifies points.block, this`scanIdx
      ensures CellsSound()
      ensures scanIdx == N_SCANS - RT_STEP
      ensures forall a, b :: 0 <= a < N_SCANS - RT_STEP && 0 <= b < N_MZPOINTS ==>
        points.At(a, b) == old(points.At(a + RT_STEP, b))
      ensures forall a, b :: N_SCANS - RT_STEP <= a < N_SCANS && 0 <= b < N_MZPOINTS ==> points.At(a, b) == ZERO
    {
      scanIdx := StepPointmatrix(points, RT_STEP);
      if scanIdx < 0 {
        assert false;
      }
      forall a, b | 0 <= a < N_SCANS && 0 <= b < N_MZPOINTS
        ensures Sound(points.At(a, b))
      {
        if a < N_SCANS - RT_STEP {
          assert points.At(a, b) == old(points.At(a + RT_STEP, b));
        }
      }
    }

    /** Line 65: the colours last seen before `horizon` are printed and their slots freed. */
    method RetireFlags(horizon: int)
      requires flags.Length == N_FLAG && SlotsSeen() && totalScans >= 0
      modifies flags, this`output
      ensures SlotsSeen()
      ensures flags[..] == Retired(old(flags[..]), horizon)
      ensures output == old(output) + Reports(old(flags[..]), horizon)
    {
      ghost var s := flags[..];
      assert s == flags[..N_FLAG];
      if horizon >= 0 {
        PrintColorNeverFails(Consolidate(s), horizon);
      }
      var _, calls := FreshenFlags(flags, N_FLAG, horizon, PrintColor);
      assert flags[..] == flags[..N_FLAG];
      output := output + calls;
      forall i | 0 <= i < flags.Length
        ensures flags[i].lastSeen <= totalScans
      {
        assert flags[i] == flags[..][i];
      }
    }

    /** The flags of the placed points at positions `ps`. */
    ghost function FlagsOf(ps: seq<(nat, nat)>): (fs: seq<nat>)
      requires CellsSound()
      requires forall i :: 0 <= i < |ps| ==> ps[i].0 < N_SCANS && ps[i].1 < N_MZPOINTS && points.At(ps[i].0, ps[i].1).mz != 0.0
      reads points, points.rows, points.block
      ensures |fs| == |ps|
      ensures forall i :: 0 <= i < |fs| ==> fs[i] < N_FLAG && points.At(ps[i].0, ps[i].1).flag == Some(fs[i])
    {
      if |ps| == 0 then [] else [points.At(ps[0].0, ps[0].1).flag.value] + FlagsOf(ps[1..])
    }

    /** The flags of the neighbours of a point at m/z `mz` in the current row, in search order. */
    ghost function NeighbourFlags(mz: real): (fs: seq<nat>)
      requires CellsSound() && scanIdx <= N_SCANS
      reads this, points, points.rows, points.block
      ensures forall i :: 0 <= i < |fs| ==> fs[i] < N_FLAG
    {
      FlagsOf(Neighbours(points, scanIdx, mz))
    }

    /**
     * Lines 77-109, the search of the N_PREV rows above the current one:
     * the flags of the first two neighbours found, in search order (the
     * search ends at the second).  The check that ends the process with
     * -10 when a neighbour has no flag cannot fire: every placed point has
     * one.  The search reads no flag slot, so the updates it makes to the
     * pool are left to Join (see Place).
     */
    method FindNeighbours(mz: real) returns (first: Option<nat>, second: Option<nat>)
      requires CellsSound() && 0 <= scanIdx < N_SCANS
      ensures var fs := NeighbourFlags(mz);
        first == (if |fs| >= 1 then Some(fs[0]) else None) &&
        second == (if |fs| >= 2 then Some(fs[1]) else None)
    {
      ghost var M := Scan(points, scanIdx - 1, 0, scanIdx - N_PREV, mz);
      ghost var seen;
      first, second, seen := SearchRows(mz, M);
      SightedPrefix(mz, M, seen, first, second);
    }

    /** The loop over the rows of the search, from the row above the current one upwards. */
    method SearchRows(mz: real, ghost M: seq<(nat, nat)>) returns (first: Option<nat>, second: Option<nat>, ghost seen: seq<(nat, nat)>)
      requires CellsSound() && 0 <= scanIdx < N_SCANS && M == Scan(points, scanIdx - 1, 0, scanIdx - N_PREV, mz)
      ensures Sighted(seen, first)
      ensures (|seen| < 2 && M == seen && second == None) ||
        (|seen| == 2 && |M| >= 2 && M[..2] == seen && second == points.At(seen[1].0, seen[1].1).flag)
    {
      var low := scanIdx - N_PREV;
      seen := [];
      first, second := None, None;
      var a := scanIdx - 1;
      while a >= low && a >= 0 && second.None?
        invariant low - 1 <= a < scanIdx && Sighted(seen, first)
        invariant second.None? ==> |seen| <= 1 && M == seen + Scan(points, a, 0, low, mz)
        invariant second.Some? ==>
          |seen| == 2 && |M| >= 2 && M[..2] == seen && second == points.At(seen[1].0, seen[1].1).flag
        decreases a - low
      {
        first, second, seen := SearchRow(a, low, mz, first, seen, M);
        a := a - 1;
      }
    }

    /**
     * The search has seen the neighbours at `seen` (at most two), and
     * `first` is the flag of the first one.
     */
    ghost predicate Sighted(seen: seq<(nat, nat)>, first: Option<nat>)
      reads points, points.rows, points.block
    {
      CellsSound() && |seen| <= 2 &&
      (forall i :: 0 <= i < |seen| ==>
        seen[i].0 < N_SCANS && seen[i].1 < N_MZPOINTS && points.At(seen[i].0, seen[i].1).mz != 0.0) &&
      first == (if |seen| == 0 then None else points.At(seen[0].0, seen[0].1).flag)
    }

    /** What the search returns is read off the first two positions found. */
    lemma SightedPrefix(mz: real, M: seq<(nat, nat)>, seen: seq<(nat, nat)>, first: Option<nat>, second: Option<nat>)
      requires Sighted(seen, first) && 0 <= scanIdx < N_SCANS && M == Scan(points, scanIdx - 1, 0, scanIdx - N_PREV, mz)
      requires (|seen| < 2 && M == seen && second == None) ||
        (|seen| == 2 && |M| >= 2 && M[..2] == seen && second == points.At(seen[1].0, seen[1].1).flag)
      ensures var fs := NeighbourFlags(mz);
        first == (if |fs| >= 1 then Some(fs[0]) else None) &&
        second == (if |fs| >= 2 then Some(fs[1]) else None)
    {
      ScanFound(points, scanIdx - 1, scanIdx - N_PREV, mz);
      if |seen| == 2 {
        assert M[0] == seen[0] && M[1] == seen[1];
      }
    }

    /**
     * The inner loop of the search, over row `a`, after the neighbours at
     * `seen0`: a `second` flag says the row held the second neighbour,
     * where the search ends.
     */
    method SearchRow(a: nat, low: int, mz: real, first0: Option<nat>, ghost seen0: seq<(nat, nat)>, ghost M: seq<(nat, nat)>)
      returns (first: Option<nat>, second: Option<nat>, ghost seen: seq<(nat, nat)>)
      requires low <= a < N_SCANS && Sighted(seen0, first0) && |seen0| <= 1
      requires M == seen0 + Scan(points, a, 0, low, mz)
      ensures Sighted(seen, first)
      ensures second.Some? ==> |seen| == 2 && |M| >= 2 && M[..2] == seen && second == points.At(seen[1].0, seen[1].1).flag
      ensures second.None? ==> |seen| <= 1 && M == seen + Scan(points, a - 1, 0, low, mz)
    {
      first, second, seen := first0, None, seen0;
      var b := 0;
      while b < N_MZPOINTS
        invariant 0 <= b <= N_MZPOINTS
        invariant M == seen + Scan(points, a, b, low, mz)
        invariant Sighted(seen, first) && |seen| <= 1 && second == None
      {
        var p := points.At(a, b);
        if p.mz == 0.0 { break; }
        if p.mz - mz < -MZ_DIST {
          b := b + 1;
          continue;
        }
        if p.mz - mz > MZ_DIST { break; }
        if p.flag.None? {
          assert false;
        }
        ghost var rest := Scan(points, a, b + 1, low, mz);
        assert M == (seen + [(a, b)]) + rest;
        if first.None? {
          first := p.flag;
        } else {
          second := p.flag;
        }
        seen := seen + [(a, b)];
        if second.Some? {
          assert M[..2] == seen;
          return;
        }
        b := b + 1;
      }
    }

    /**
     * Lines 75-118, one accepted record in the current scan, once the row
     * is known to have a free column: the point is written at that column
     * and joins the cluster of its first neighbour (merging the second
     * neighbour's slot into it), or takes the current flag of the pool,
     * after which the next free slot is looked up.  Exit(-3) when the pool
     * has no free slot left.
     */
    method Place(mz: real, intensity: real) returns (status: Status, ghost fs: seq<nat>)
      requires Valid() && currentRT.Some? && mzIdx < N_MZPOINTS
      modifies this`mzIdx, this`currentFlag, flags, points.block
      ensures status == Running || status == Exit(-3)
      ensures CellsSound()
      ensures fs == old(NeighbourFlags(mz))
      ensures Placed(mz, intensity, old(mzIdx), old(flags[..]), old(currentFlag), fs, status)
      ensures NeighbourFlags(mz) == fs
      ensures forall a, b :: 0 <= a < N_SCANS && 0 <= b < N_MZPOINTS && (a != scanIdx || b != old(mzIdx)) ==>
        points.At(a, b) == old(points.At(a, b))
      ensures status == Running ==> Valid()
    {
      var first, second := FindNeighbours(mz);
      SearchReadsOnly(mz);
      fs := NeighbourFlags(mz);
      status := Settle(fs, mz, intensity, first, second);
      NeighboursKept(mz);
    }

    /** A step that changes nothing leaves the neighbours and their flags as they were. */
    twostate lemma SearchReadsOnly(mz: real)
      requires old(Valid()) && old(currentRT.Some?)
      requires unchanged(this, flags, points, points.rows, points.block)
      ensures Valid() && NeighbourFlags(mz) == old(NeighbourFlags(mz))
    {
    }

    /**
     * Writing cells of the current row leaves the neighbours of a point in
     * that row and their flags as they were: the search reads only the rows
     * above it.
     */
    twostate lemma NeighboursKept(mz: real)
      requires old(CellsSound()) && CellsSound() && 0 <= scanIdx < N_SCANS && scanIdx == old(scanIdx)
      requires forall a, b :: 0 <= a < N_SCANS && 0 <= b < N_MZPOINTS && (a != scanIdx || b != old(mzIdx)) ==>
        points.At(a, b) == old(points.At(a, b))
      ensures NeighbourFlags(mz) == old(NeighbourFlags(mz))
    {
      var k, low := -1, scanIdx - N_PREV;
      while k < scanIdx - 1
        invariant -1 <= k < scanIdx && Found(points, k, low, mz) == old(Found(points, k, low, mz))
      {
        k := k + 1;
        forall b | 0 <= b < N_MZPOINTS
          ensures points.Row(k)[b] == old(points.Row(k))[b]
        {
        }
        assert points.Row(k) == old(points.Row(k));
      }
      ghost var ps := Neighbours(points, scanIdx, mz);
      assert ps == old(Neighbours(points, scanIdx, mz));
      FlagsKept(ps);
    }

    twostate lemma FlagsKept(ps: seq<(nat, nat)>)
      requires old(CellsSound()) && CellsSound()
      requires forall i :: 0 <= i < |ps| ==>
        ps[i].0 < N_SCANS && ps[i].1 < N_MZPOINTS &&
        old(points.At(ps[i].0, ps[i].1)).mz != 0.0 && points.At(ps[i].0, ps[i].1) == old(points.At(ps[i].0, ps[i].1))
      ensures FlagsOf(ps) == old(FlagsOf(ps))
    {
      var k := |ps|;
      while k > 0
        invariant 0 <= k <= |ps| && FlagsOf(ps[k..]) == old(FlagsOf(ps[k..]))
      {
        k := k - 1;
        assert ps[k..][1..] == ps[k + 1..];
      }
    }

    /**
     * `next` is the slot getnextFlag gives after `from`: free, and every
     * slot from `from` up to it in round-robin order is busy.
     */
    ghost predicate NextFree(from: int, next: int)
      reads this, flags
    {
      flags.Length == N_FLAG && 0 <= from < N_FLAG && 0 <= next < N_FLAG && Free(flags[next]) &&
      forall k :: 0 <= k < Steps(from, next, N_FLAG) ==> !Free(flags[Cyclic(from, k, N_FLAG)])
    }

    /**
     * Lines 89-118 once the search has met the neighbours whose flags are
     * `fs`, of which `first` and `second` are the first two.
     */
    method Settle(ghost fs: seq<nat>, mz: real, intensity: real, first: Option<nat>, second: Option<nat>)
      returns (status: Status)
      requires Valid() && currentRT.Some? && mzIdx < N_MZPOINTS
      requires forall i :: 0 <= i < |fs| ==> fs[i] < N_FLAG
      requires first == (if |fs| >= 1 then Some(fs[0]) else None)
      requires second == (if |fs| >= 2 then Some(fs[1]) else None)
      modifies this`mzIdx, this`currentFlag, flags, points.block
      ensures status == Running || status == Exit(-3)
      ensures var f := if |fs| >= 1 then fs[0] else old(currentFlag);
        points.At(scanIdx, old(mzIdx)) == Point(mz, intensity, Some(f)) &&
        (forall a, b :: 0 <= a < N_SCANS && 0 <= b < N_MZPOINTS && (a != scanIdx || b != old(mzIdx)) ==>
          points.At(a, b) == old(points.At(a, b))) &&
        (|fs| >= 1 ==> flags[..] == Join(old(flags[..]), fs, totalScans) && currentFlag == old(currentFlag)) &&
        (|fs| == 0 ==> flags[..] == old(flags[..])[f := Flag(old(flags[f].color), totalScans)]) &&
        (status == Exit(-3) <==> |fs| == 0 && Exhausted())
      ensures status == Running ==> Valid() && mzIdx == old(mzIdx) + 1
      ensures status == Running && |fs| == 0 ==> NextFree(old(currentFlag), currentFlag)
      ensures CellsSound()
    {
      if first.Some? {
        JoinCluster(fs, mz, intensity, first.value, second);
        return Running;
      }
      status := NewCluster(mz, intensity);
    }

    /** Lines 89-102 and 118 for a point with neighbours, whose flags are `fs`. */
    method JoinCluster(ghost fs: seq<nat>, mz: real, intensity: real, f0: nat, second: Option<nat>)
      requires Valid() && currentRT.Some? && mzIdx < N_MZPOINTS
      requires forall i :: 0 <= i < |fs| ==> fs[i] < N_FLAG
      requires |fs| >= 1 && fs[0] == f0 && second == (if |fs| >= 2 then Some(fs[1]) else None)
      modifies this`mzIdx, flags, points.block
      ensures Valid() && mzIdx == old(mzIdx) + 1
      ensures points.At(scanIdx, old(mzIdx)) == Point(mz, intensity, Some(f0))
      ensures forall a, b :: 0 <= a < N_SCANS && 0 <= b < N_MZPOINTS && (a != scanIdx || b != old(mzIdx)) ==>
        points.At(a, b) == old(points.At(a, b))
      ensures flags[..] == Join(old(flags[..]), fs, totalScans)
    {
      MarkSeen(fs, f0, second);
      StorePoint(Point(mz, intensity, Some(f0)));
    }

    /**
     * Lines 110-118 for a point without neighbours: it takes the current
     * flag, which is marked seen, and the next free slot becomes current.
     * Exit(-3) when no slot is free.
     */
    method NewCluster(mz: real, intensity: real) returns (status: Status)
      requires Valid() && currentRT.Some? && mzIdx < N_MZPOINTS
      modifies this`mzIdx, this`currentFlag, flags, points.block
      ensures status == Running || status == Exit(-3)
      ensures points.At(scanIdx, old(mzIdx)) == Point(mz, intensity, Some(old(currentFlag)))
      ensures forall a, b :: 0 <= a < N_SCANS && 0 <= b < N_MZPOINTS && (a != scanIdx || b != old(mzIdx)) ==>
        points.At(a, b) == old(points.At(a, b))
      ensures flags[..] == old(flags[..])[old(currentFlag) := Flag(old(flags[currentFlag].color), totalScans)]
      ensures status == Exit(-3) <==> Exhausted()
      ensures status == Running ==> Valid() && mzIdx == old(mzIdx) + 1 && NextFree(old(currentFlag), currentFlag)
      ensures CellsSound()
    {
      var f := currentFlag;
      flags[f] := Flag(flags[f].color, totalScans);
      StorePoint(Point(mz, intensity, Some(f)));
      var next := GetNextFlag(flags, N_FLAG, f);
      if next < 0 {
        return Exit(-3);
      }
      currentFlag := next;
      return Running;
    }

    /**
     * Lines 89-102 on the pool: the first neighbour's slot `f0` is seen at
     * the current scan, and a second neighbour's slot is overwritten with it.
     * The check after the merge that ends the process with -10 cannot fire.
     */
    method MarkSeen(ghost fs: seq<nat>, f0: nat, second: Option<nat>)
      requires flags.Length == N_FLAG && SlotsSeen()
      requires forall i :: 0 <= i < |fs| ==> fs[i] < N_FLAG
      requires |fs| >= 1 && fs[0] == f0 && second == (if |fs| >= 2 then Some(fs[1]) else None)
      modifies flags
      ensures SlotsSeen()
      ensures flags[..] == Join(old(flags[..]), fs, totalScans)
    {
      flags[f0] := Flag(flags[f0].color, totalScans);
      if second.Some? {
        var f1 := second.value;
        flags[f1] := flags[f0];
        if flags[f1].lastSeen != totalScans || flags[f0].lastSeen != totalScans {
          assert false;
        }
      }
    }

    /** Lines 74-75 and 118: the point goes to the next free column of the current row. */
    method StorePoint(p: Point)
      requires CellsSound() && FreshCells() && 0 <= scanIdx < N_SCANS && 0 <= mzIdx < N_MZPOINTS && Sound(p)
      modifies points.block, this`mzIdx
      ensures CellsSound() && FreshCells() && mzIdx == old(mzIdx) + 1
      ensures points.At(scanIdx, old(mzIdx)) == p
      ensures forall a, b :: 0 <= a < N_SCANS && 0 <= b < N_MZPOINTS && (a != scanIdx || b != old(mzIdx)) ==>
        points.At(a, b) == old(points.At(a, b))
    {
      points.Set(scanIdx, mzIdx, p);
      mzIdx := mzIdx + 1;
    }
  }

  /** The retention time of the last accepted line, None when no line is accepted. */
  function LastRT(lines: seq<Line>): Option<real>
  {
    if |lines| == 0 then None
    else if Accepted(lines[|lines| - 1]) then Some(lines[|lines| - 1].rt)
    else LastRT(lines[..|lines| - 1])
  }

  /**
   * `total_scans` after `lines`: the number of accepted lines whose
   * retention time differs from that of the accepted line before them.
   */
  function ScanCount(lines: seq<Line>): nat
  {
    if |lines| == 0 then 0
    else
      var p := lines[..|lines| - 1];
      var l := lines[|lines| - 1];
      ScanCount(p) + (if Accepted(l) && NewScan(LastRT(p), l.rt) then 1 else 0)
  }

  /**
   * The last retention time is that of an accepted line, and the count
   * is at most the number of lines and zero exactly when no line is
   * accepted.
   */
  lemma {:induction false} ScanCountBounds(lines: seq<Line>)
    ensures LastRT(lines).None? <==> forall i :: 0 <= i < |lines| ==> !Accepted(lines[i])
    ensures LastRT(lines).Some? ==>
      exists i :: 0 <= i < |lines| && Accepted(lines[i]) && lines[i].rt == LastRT(lines).value
    ensures ScanCount(lines) <= |lines|
    ensures ScanCount(lines) == 0 <==> forall i :: 0 <= i < |lines| ==> !Accepted(lines[i])
  {
    if |lines| > 0 {
      var p := lines[..|lines| - 1];
      ScanCountBounds(p);
      assert forall i :: 0 <= i < |p| ==> p[i] == lines[i];
    }
  }

  /** One more line: how the scan count and the last retention time move. */
  lemma ScanCountStep(lines: seq<Line>, i: nat)
    requires i < |lines|
    ensures LastRT(lines[..i + 1]) == if Accepted(lines[i]) then Some(lines[i].rt) else LastRT(lines[..i])
    ensures ScanCount(lines[..i + 1]) ==
      ScanCount(lines[..i]) + if Accepted(lines[i]) && NewScan(LastRT(lines[..i]), lines[i].rt) then 1 else 0
  {
    assert lines[..i + 1][..i] == lines[..i];
  }

  /**
   * main over the lines of the input (lines 36-126): the window and the
   * pool are set up, every line is fed in order, and the colours still
   * active are reported.  Exit(-3) when a row or the pool overflows;
   * otherwise Exit(0) with every slot of the pool free and one scan
   * counted per change of retention time.
   */
  method Run(lines: seq<Line>) returns (status: Status, c: Clusterer, ghost pool: seq<Flag>)
    ensures status == Exit(0) || status == Exit(-3)
    ensures status == Exit(-3) ==> exists i :: 0 <= i < |lines| && Accepted(lines[i])
    ensures status == Exit(0) ==>
      c.flags.Length == N_FLAG && c.totalScans == ScanCount(lines) && c.currentRT == LastRT(lines) &&
      forall i :: 0 <= i < N_FLAG ==> Free(c.flags[i])
    ensures status == Exit(0) ==>
      var calls := RunOutput(Consolidate(pool), c.totalScans + 2 * N_PREV, PrintColor).calls;
      |pool| == N_FLAG && c.flags[..] == Recycled(pool, Consolidate(pool), c.totalScans + 2 * N_PREV, TopColor(pool)) &&
      (forall i :: 0 <= i < N_FLAG ==> pool[i].lastSeen <= c.totalScans) &&
      |calls| <= |c.output| && c.output[|c.output| - |calls|..] == calls &&
      (forall i, j :: 0 <= i < j < |calls| ==> calls[i].color != calls[j].color) &&
      forall col :: (exists e :: e in calls && e.color == col) <==> ActiveColor(pool, col)
  {
    var m := Pointmatrix(N_SCANS, N_MZPOINTS);
    if m == null {
      assert false;
    }
    c := new Clusterer(m);
    status := c.Consume(lines);
    if status != Running {
      return status, c, [];
    }
    pool := c.Flush();
    status := Exit(0);
  }

  /**
   * The search as the loops run it, from column `b` of row `a` down to
   * row `low`: the positions found, in order.
   */
  ghost function Scan(m: PointMatrix, a: int, b: nat, low: int, mz: real): (r: seq<(nat, nat)>)
    requires m.Valid() && a < m.dim1 && b <= m.dim2
    reads m, m.rows, m.block
    decreases a + 1, m.dim2 - b
  {
    if a < 0 || a < low then []
    else if b == m.dim2 then Scan(m, a - 1, 0, low, mz)
    else
      var p := m.At(a, b);
      if p.mz == 0.0 || p.mz - mz > MZ_DIST then Scan(m, a - 1, 0, low, mz)
      else if p.mz - mz < -MZ_DIST then Scan(m, a, b + 1, low, mz)
      else [(a, b)] + Scan(m, a, b + 1, low, mz)
  }

  /** The loop-shaped search finds what the row-by-row specification describes. */
  lemma {:induction false} ScanFound(m: PointMatrix, a: int, low: int, mz: real)
    requires m.Valid() && a < m.dim1
    ensures Scan(m, a, 0, low, mz) == Found(m, a, low, mz)
    decreases a + 1
  {
    if a >= 0 && a >= low {
      ScanFound(m, a - 1, low, mz);
      ScanRow(m, a, 0, low, mz);
    }
  }

  lemma {:induction false} ScanRow(m: PointMatrix, a: nat, b: nat, low: int, mz: real)
    requires m.Valid() && a < m.dim1 && b <= m.dim2 && low <= a
    ensures Scan(m, a, b, low, mz) == InRow(a, RowMatches(m.Row(a), mz, b)) + Scan(m, a - 1, 0, low, mz)
    decreases m.dim2 - b
  {
    var row := m.Row(a);
    if b < m.dim2 {
      ScanRow(m, a, b + 1, low, mz);
      var p := m.At(a, b);
      assert row[b] == p;
      if !(p.mz == 0.0 || p.mz - mz > MZ_DIST) && !(p.mz - mz < -MZ_DIST) {
        RowHit(row, mz, a, b);
      }
    }
  }

  /** A column in band adds its position to the positions found in its row. */
  lemma RowHit(row: seq<Point>, mz: real, a: nat, b: nat)
    requires b < |row| && row[b].mz != 0.0 && InBand(row[b], mz)
    ensures InRow(a, RowMatches(row, mz, b)) == [(a, b)] + InRow(a, RowMatches(row, mz, b + 1))
  {
    assert RowMatches(row, mz, b) == [b] + RowMatches(row, mz, b + 1);
  }
}
