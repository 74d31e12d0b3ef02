/**
 * The flag pool of the streaming clusterer (clustering/clm_flags.c).
 *
 * A flag is a cluster identity: a colour and the last scan in which one of
 * its points was seen.  A slot whose last_seen is -1 is free.  The pool is a
 * fixed array; `GetNextFlag` hands out free slots round-robin and
 * `FreshenFlags` consolidates the active slots by colour, reports the colours
 * that have fallen behind a horizon and recycles their slots.
 */
module Flags {
  import opened Common

  /** Marker in `lastSeen` of a free slot. */
  const AVAILABLE: int := -1

  datatype Flag = Flag(color: int, lastSeen: int)

  predicate Free(f: Flag) { f.lastSeen == AVAILABLE }

  predicate Active(f: Flag) { f.lastSeen != AVAILABLE }

  /** Slot reached after `k` round-robin steps from `start` in a pool of `len`. */
  function Cyclic(start: int, k: int, len: int): (i: int)
    requires 0 <= start < len && 0 <= k <= len
    ensures 0 <= i < len
    ensures k == len ==> i == start
  {
    if start + k < len then start + k else start + k - len
  }

  /** Number of round-robin steps from `start` to `i`. */
  function Steps(start: int, i: int, len: int): (k: int)
    requires 0 <= start < len && 0 <= i < len
    ensures 0 <= k < len && Cyclic(start, k, len) == i
  {
    if i >= start then i - start else i + len - start
  }

  /**
   * getnextFlag: -1 for invalid arguments, otherwise the first free slot in
   * round-robin order starting at `current` itself, or -2 when no slot is
   * free.  The pool is only read.
   */
  method GetNextFlag(flags: array<Flag>, len: int, current: int) returns (r: int)
    requires len <= flags.Length
    ensures r == -1 <==> (len <= 0 || current < 0 || current >= len)
    ensures r == -2 <==> (0 <= current < len && forall i :: 0 <= i < len ==> !Free(flags[i]))
    ensures r == -1 || r == -2 || 0 <= r < len
    ensures 0 <= r < len ==> (Free(flags[r]) && 0 <= current < len &&
      forall k :: 0 <= k < Steps(current, r, len) ==> !Free(flags[Cyclic(current, k, len)]))
    ensures 0 <= current < len && Free(flags[current]) ==> r == current
  {
    if len <= 0 { return -1; }
    if current < 0 { return -1; }
    if current >= len { return -1; }

    var next, k := current, 0;
    while true
      invariant 0 <= k < len && next == Cyclic(current, k, len)
      invariant forall j :: 0 <= j < k ==> !Free(flags[Cyclic(current, j, len)])
      decreases len - k
    {
      if flags[next].lastSeen == AVAILABLE {
        assert Steps(current, next, len) == k;
        return next;
      }
      next := next + 1;
      if next >= len { next := next - len; }
      k := k + 1;
      if next == current {
        break;
      }
    }
    assert k == len;
    forall i | 0 <= i < len ensures !Free(flags[i]) {
      assert Cyclic(current, Steps(current, i, len), len) == i;
    }
    return -2;
  }

  // ---------------------------------------------------------------------
  // Consolidation by colour (the first loop of freshenFlags)

  /** Index of the first entry of `t` with colour `c`, or |t| when none has it. */
  function FindColor(t: seq<Flag>, c: int): (i: nat)
    ensures i <= |t|
    ensures i < |t| ==> t[i].color == c
    ensures forall j :: 0 <= j < i ==> t[j].color != c
  {
    if |t| == 0 then 0
    else if t[0].color == c then 0
    else 1 + FindColor(t[1..], c)
  }

  /** One step of the consolidation loop: fold slot `f` into table `t`. */
  function Absorb(t: seq<Flag>, f: Flag): seq<Flag>
  {
    if !Active(f) then t
    else
      var b := FindColor(t, f.color);
      if b < |t| then t[b := Flag(t[b].color, Max(t[b].lastSeen, f.lastSeen))]
      else t + [f]
  }

  /** The table `new[0..tail)` that freshenFlags builds from the slots `s`. */
  function Consolidate(s: seq<Flag>): seq<Flag>
  {
    if |s| == 0 then [] else Absorb(Consolidate(s[..|s| - 1]), s[|s| - 1])
  }

  /** The `curr_color` after the consolidation loop: -1 or the largest active colour. */
  function TopColor(s: seq<Flag>): int
  {
    if |s| == 0 then -1
    else Max(TopColor(s[..|s| - 1]), if Active(s[|s| - 1]) then s[|s| - 1].color else -1)
  }

  ghost predicate HasColor(t: seq<Flag>, c: int)
  {
    exists i :: 0 <= i < |t| && t[i].color == c
  }

  ghost predicate ActiveColor(s: seq<Flag>, c: int)
  {
    exists a :: 0 <= a < |s| && Active(s[a]) && s[a].color == c
  }

  /** Entries of a table carry pairwise distinct colours. */
  ghost predicate DistinctColors(t: seq<Flag>)
  {
    forall i, j :: 0 <= i < j < |t| ==> t[i].color != t[j].color
  }

  /** Entry `e` is at least the last_seen of every active slot of its colour. */
  ghost predicate BoundsColor(s: seq<Flag>, e: Flag)
  {
    forall a :: 0 <= a < |s| && Active(s[a]) && s[a].color == e.color ==> s[a].lastSeen <= e.lastSeen
  }

  /** Some active slot of `e`'s colour was last seen exactly at `e.lastSeen`. */
  ghost predicate AttainsColor(s: seq<Flag>, e: Flag)
  {
    exists a :: 0 <= a < |s| && Active(s[a]) && s[a].color == e.color && s[a].lastSeen == e.lastSeen
  }

  /** Entry `e` holds the maximum last_seen over the active slots of its colour. */
  ghost predicate IsColorMax(s: seq<Flag>, e: Flag)
  {
    BoundsColor(s, e) && AttainsColor(s, e)
  }

  lemma AbsorbDistinct(t: seq<Flag>, f: Flag)
    requires DistinctColors(t)
    ensures DistinctColors(Absorb(t, f))
  {
  }

  lemma AbsorbColors(t: seq<Flag>, f: Flag)
    ensures forall c :: HasColor(Absorb(t, f), c) <==> HasColor(t, c) || (Active(f) && f.color == c)
  {
    var t' := Absorb(t, f);
    forall c ensures HasColor(t', c) <==> HasColor(t, c) || (Active(f) && f.color == c) {
      if HasColor(t, c) {
        var i :| 0 <= i < |t| && t[i].color == c;
        assert t'[i].color == c;
      }
      if Active(f) && f.color == c {
        assert t'[FindColor(t, c)].color == c;
      }
    }
  }

  lemma ActiveColorSnoc(p: seq<Flag>, f: Flag)
    ensures forall c :: ActiveColor(p + [f], c) <==> ActiveColor(p, c) || (Active(f) && f.color == c)
  {
    var s := p + [f];
    forall c ensures ActiveColor(s, c) <==> ActiveColor(p, c) || (Active(f) && f.color == c) {
      if ActiveColor(p, c) {
        var a :| 0 <= a < |p| && Active(p[a]) && p[a].color == c;
        assert s[a] == p[a];
      }
      if Active(f) && f.color == c {
        assert s[|p|] == f;
      }
    }
  }

  /** A table entry that `f` does not touch keeps its maximum when `f` is appended to the slots. */
  lemma ColorMaxSnocOther(p: seq<Flag>, f: Flag, e: Flag)
    requires IsColorMax(p, e)
    requires !Active(f) || f.color != e.color
    ensures IsColorMax(p + [f], e)
  {
    var s := p + [f];
    var a0 :| 0 <= a0 < |p| && Active(p[a0]) && p[a0].color == e.color && p[a0].lastSeen == e.lastSeen;
    assert s[a0] == p[a0];
  }

  /** The entry of `f`'s colour becomes the larger of its old maximum and `f.lastSeen`. */
  lemma ColorMaxSnocSame(p: seq<Flag>, f: Flag, e: Flag)
    requires IsColorMax(p, e) && Active(f) && f.color == e.color
    ensures IsColorMax(p + [f], Flag(e.color, Max(e.lastSeen, f.lastSeen)))
  {
    var s := p + [f];
    var a0 :| 0 <= a0 < |p| && Active(p[a0]) && p[a0].color == e.color && p[a0].lastSeen == e.lastSeen;
    assert s[a0] == p[a0] && s[|p|] == f;
  }

  /** A colour seen for the first time: its only slot so far is `f`. */
  lemma ColorMaxSnocNew(p: seq<Flag>, f: Flag)
    requires Active(f) && !ActiveColor(p, f.color)
    ensures IsColorMax(p + [f], f)
  {
    var s := p + [f];
    assert s[|p|] == f;
    assert forall a :: 0 <= a < |p| ==> s[a] == p[a];
  }

  lemma {:induction false} ConsolidateDistinct(s: seq<Flag>)
    ensures DistinctColors(Consolidate(s))
  {
    if |s| > 0 {
      ConsolidateDistinct(s[..|s| - 1]);
      AbsorbDistinct(Consolidate(s[..|s| - 1]), s[|s| - 1]);
    }
  }

  /** The consolidated table holds exactly the colours of the active slots. */
  lemma {:induction false} ConsolidateColors(s: seq<Flag>)
    ensures forall c :: HasColor(Consolidate(s), c) <==> ActiveColor(s, c)
  {
    if |s| > 0 {
      var p, f := s[..|s| - 1], s[|s| - 1];
      assert s == p + [f];
      ConsolidateColors(p);
      AbsorbColors(Consolidate(p), f);
      ActiveColorSnoc(p, f);
    }
  }

  /** Each consolidated entry carries the maximum last_seen of its colour. */
  lemma {:induction false} ConsolidateMax(s: seq<Flag>)
    ensures forall i :: 0 <= i < |Consolidate(s)| ==> IsColorMax(s, Consolidate(s)[i])
  {
    if |s| > 0 {
      var p, f := s[..|s| - 1], s[|s| - 1];
      assert s == p + [f];
      ConsolidateMax(p);
      ConsolidateColors(p);
      var t := Consolidate(p);
      var t' := Consolidate(s);
      var b := FindColor(t, f.color);
      forall i | 0 <= i < |t'| ensures IsColorMax(s, t'[i]) {
        if !Active(f) {
          ColorMaxSnocOther(p, f, t[i]);
        } else if i == b && b < |t| {
          ColorMaxSnocSame(p, f, t[i]);
        } else if i < |t| {
          ConsolidateDistinct(p);
          assert t[i].color != f.color by {
            if b < |t| && b < i { assert t[b].color == f.color; }
          }
          ColorMaxSnocOther(p, f, t[i]);
        } else {
          assert !HasColor(t, f.color);
          ColorMaxSnocNew(p, f);
        }
      }
    }
  }

  /**
   * The consolidated table has exactly one entry per distinct colour among the
   * active slots, and each entry's last_seen is the maximum over that colour.
   */
  lemma ConsolidateIsPerColorMax(s: seq<Flag>)
    ensures DistinctColors(Consolidate(s))
    ensures forall c :: HasColor(Consolidate(s), c) <==> ActiveColor(s, c)
    ensures forall i :: 0 <= i < |Consolidate(s)| ==> IsColorMax(s, Consolidate(s)[i])
  {
    ConsolidateDistinct(s);
    ConsolidateColors(s);
    ConsolidateMax(s);
  }

  /** The largest active colour is at most TopColor, so fresh colours exceed every active one. */
  lemma {:induction false} TopColorBounds(s: seq<Flag>)
    ensures TopColor(s) >= -1
    ensures forall a :: 0 <= a < |s| && Active(s[a]) ==> s[a].color <= TopColor(s)
  {
    if |s| > 0 {
      var p := s[..|s| - 1];
      TopColorBounds(p);
      forall a | 0 <= a < |s| && Active(s[a]) ensures s[a].color <= TopColor(s) {
        if a < |p| { assert s[a] == p[a]; }
      }
    }
  }

  // ---------------------------------------------------------------------
  // Reporting stale colours (the second loop of freshenFlags)

  /** A colour is stale when its consolidated entry was last seen before `scan`. */
  predicate Stale(t: seq<Flag>, c: int, scan: int)
  {
    var b := FindColor(t, c);
    b < |t| && t[b].lastSeen < scan
  }

  /** Entries of the table that are older than `scan`, in table order. */
  function StaleEntries(t: seq<Flag>, scan: int): seq<Flag>
  {
    if |t| == 0 then []
    else StaleEntries(t[..|t| - 1], scan) + (if t[|t| - 1].lastSeen < scan then [t[|t| - 1]] else [])
  }

  /** The result of the reporting loop: the calls made to `outflag`, and whether one failed. */
  datatype Report = Report(calls: seq<Flag>, failed: bool)

  function RunOutput(t: seq<Flag>, scan: int, outflag: Flag -> int): Report
  {
    if |t| == 0 then Report([], false)
    else
      var r := RunOutput(t[..|t| - 1], scan, outflag);
      var e := t[|t| - 1];
      if r.failed || !(e.lastSeen < scan) then r
      else Report(r.calls + [e], outflag(e) != 0)
  }

  /** Without a failure every stale entry is reported exactly once, in table order. */
  lemma {:induction false} RunOutputReportsStale(t: seq<Flag>, scan: int, outflag: Flag -> int)
    ensures var r := RunOutput(t, scan, outflag);
      !r.failed ==> r.calls == StaleEntries(t, scan) && forall e :: e in r.calls ==> outflag(e) == 0
    ensures var r := RunOutput(t, scan, outflag);
      r.failed <==> exists e :: e in StaleEntries(t, scan) && outflag(e) != 0
  {
    if |t| > 0 {
      var p := t[..|t| - 1];
      RunOutputReportsStale(p, scan, outflag);
      var e := t[|t| - 1];
      var r := RunOutput(p, scan, outflag);
      if r.failed {
        var x :| x in StaleEntries(p, scan) && outflag(x) != 0;
        assert x in StaleEntries(t, scan);
      }
      if !r.failed && e.lastSeen < scan && outflag(e) != 0 {
        assert e in StaleEntries(t, scan);
      }
    }
  }

  lemma {:induction false} StaleEntriesOf(t: seq<Flag>, scan: int)
    ensures forall e :: e in StaleEntries(t, scan) <==> e in t && e.lastSeen < scan
    ensures DistinctColors(t) ==> DistinctColors(StaleEntries(t, scan))
  {
    if |t| > 0 {
      var p := t[..|t| - 1];
      StaleEntriesOf(p, scan);
      assert t == p + [t[|t| - 1]];
      if DistinctColors(t) {
        var q := StaleEntries(p, scan);
        forall i | 0 <= i < |q| ensures q[i].color != t[|t| - 1].color {
          assert q[i] in p;
        }
      }
    }
  }

  /**
   * When reporting succeeds, outflag is called exactly once per distinct
   * colour whose latest last_seen (over all its active slots) is before `scan`.
   */
  lemma OutputOncePerStaleColor(s: seq<Flag>, scan: int, outflag: Flag -> int)
    ensures var r := RunOutput(Consolidate(s), scan, outflag);
      !r.failed ==>
        (forall i, j :: 0 <= i < j < |r.calls| ==> r.calls[i].color != r.calls[j].color) &&
        forall c :: (exists e :: e in r.calls && e.color == c) <==>
          (ActiveColor(s, c) && forall a :: 0 <= a < |s| && Active(s[a]) && s[a].color == c ==> s[a].lastSeen < scan)
  {
    var t := Consolidate(s);
    ConsolidateIsPerColorMax(s);
    RunOutputReportsStale(t, scan, outflag);
    StaleEntriesOf(t, scan);
    var r := RunOutput(t, scan, outflag);
    if !r.failed {
      forall c ensures (exists e :: e in r.calls && e.color == c) <==>
          (ActiveColor(s, c) && forall a :: 0 <= a < |s| && Active(s[a]) && s[a].color == c ==> s[a].lastSeen < scan)
      {
        if exists e :: e in r.calls && e.color == c {
          var e :| e in r.calls && e.color == c;
          var i :| 0 <= i < |t| && t[i] == e;
          assert HasColor(t, c);
          assert IsColorMax(s, t[i]);
        }
        if ActiveColor(s, c) && forall a :: 0 <= a < |s| && Active(s[a]) && s[a].color == c ==> s[a].lastSeen < scan {
          assert HasColor(t, c);
          var i :| 0 <= i < |t| && t[i].color == c;
          assert IsColorMax(s, t[i]);
          assert t[i] in r.calls;
        }
      }
    }
  }

  // ---------------------------------------------------------------------
  // Recycling (the third loop of freshenFlags)

  /** Slot `f` belongs to a colour that the table marks stale. */
  predicate Recyclable(f: Flag, t: seq<Flag>, scan: int)
  {
    Active(f) && Stale(t, f.color, scan)
  }

  /** Number of recyclable slots in `s`: the `cleared` counter. */
  function CountStale(s: seq<Flag>, t: seq<Flag>, scan: int): nat
  {
    if |s| == 0 then 0
    else CountStale(s[..|s| - 1], t, scan) + (if Recyclable(s[|s| - 1], t, scan) then 1 else 0)
  }

  /**
   * The slots after the recycling loop: each recyclable slot becomes free
   * with colour `top` plus its rank among the recyclable slots; all other
   * slots are left as they were.
   */
  function Recycled(s: seq<Flag>, t: seq<Flag>, scan: int, top: int): (r: seq<Flag>)
    ensures |r| == |s|
  {
    seq(|s|, i requires 0 <= i < |s| =>
      if Recyclable(s[i], t, scan) then Flag(top + CountStale(s[..i + 1], t, scan), AVAILABLE) else s[i])
  }

  lemma {:induction false} CountStaleMonotone(s: seq<Flag>, t: seq<Flag>, scan: int, i: nat, j: nat)
    requires i <= j <= |s|
    ensures CountStale(s[..i], t, scan) <= CountStale(s[..j], t, scan)
    ensures i < j && Recyclable(s[j - 1], t, scan) ==> CountStale(s[..i], t, scan) < CountStale(s[..j], t, scan)
    decreases j - i
  {
    if i < j {
      CountStaleMonotone(s, t, scan, i, j - 1);
      assert s[..j][..j - 1] == s[..j - 1];
    }
  }

  /**
   * Aging: every recyclable slot ends free with a colour strictly greater
   * than every colour active on entry; the new colours are pairwise
   * distinct; all other slots are unchanged.
   */
  lemma RecycledFreshColors(s: seq<Flag>, scan: int)
    ensures var r := Recycled(s, Consolidate(s), scan, TopColor(s));
      forall i :: 0 <= i < |s| ==>
        if Recyclable(s[i], Consolidate(s), scan) then
          Free(r[i]) && forall a :: 0 <= a < |s| && Active(s[a]) ==> s[a].color < r[i].color
        else r[i] == s[i]
    ensures var r := Recycled(s, Consolidate(s), scan, TopColor(s));
      forall i, j :: 0 <= i < j < |s| && Recyclable(s[i], Consolidate(s), scan) && Recyclable(s[j], Consolidate(s), scan) ==>
        r[i].color < r[j].color
  {
    TopColorBounds(s);
    RecycledAboveTop(s, Consolidate(s), scan, TopColor(s));
    RecycledDistinct(s, Consolidate(s), scan, TopColor(s));
  }

  /** Each recyclable slot is freed with a colour above `top`; the others keep their value. */
  lemma RecycledAboveTop(s: seq<Flag>, t: seq<Flag>, scan: int, top: int)
    ensures var r := Recycled(s, t, scan, top);
      forall i :: 0 <= i < |s| ==>
        if Recyclable(s[i], t, scan) then Free(r[i]) && r[i].color > top else r[i] == s[i]
  {
    var r := Recycled(s, t, scan, top);
    forall i | 0 <= i < |s|
      ensures if Recyclable(s[i], t, scan) then Free(r[i]) && r[i].color > top else r[i] == s[i]
    {
      if Recyclable(s[i], t, scan) {
        CountStaleMonotone(s, t, scan, i, i + 1);
        assert r[i] == Flag(top + CountStale(s[..i + 1], t, scan), AVAILABLE);
      }
    }
  }

  /** The colours given to the recyclable slots increase with the slot index. */
  lemma RecycledDistinct(s: seq<Flag>, t: seq<Flag>, scan: int, top: int)
    ensures var r := Recycled(s, t, scan, top);
      forall i, j :: 0 <= i < j < |s| && Recyclable(s[i], t, scan) && Recyclable(s[j], t, scan) ==>
        r[i].color < r[j].color
  {
    var r := Recycled(s, t, scan, top);
    forall i, j | 0 <= i < j < |s| && Recyclable(s[i], t, scan) && Recyclable(s[j], t, scan)
      ensures r[i].color < r[j].color
    {
      RecycledAt(s, t, scan, top, i);
      RecycledAt(s, t, scan, top, j);
      CountStaleMonotone(s, t, scan, i + 1, j + 1);
    }
  }

  /** The colour a recyclable slot receives: `top` plus its rank. */
  lemma RecycledAt(s: seq<Flag>, t: seq<Flag>, scan: int, top: int, i: nat)
    requires i < |s| && Recyclable(s[i], t, scan)
    ensures Recycled(s, t, scan, top)[i].color == top + CountStale(s[..i + 1], t, scan)
  {
  }

  ghost function FreedSet(s: seq<Flag>, r: seq<Flag>): set<int>
    requires |r| == |s|
  {
    set i | 0 <= i < |s| && Active(s[i]) && Free(r[i])
  }

  /** Recycling a prefix of the slots agrees with recycling all of them on that prefix. */
  lemma RecycledPrefix(s: seq<Flag>, t: seq<Flag>, scan: int, top: int, n: nat)
    requires n <= |s|
    ensures forall i :: 0 <= i < n ==> Recycled(s[..n], t, scan, top)[i] == Recycled(s, t, scan, top)[i]
  {
    forall i | 0 <= i < n ensures Recycled(s[..n], t, scan, top)[i] == Recycled(s, t, scan, top)[i] {
      assert s[..n][..i + 1] == s[..i + 1];
    }
  }

  lemma FreedSetSnoc(s: seq<Flag>, r: seq<Flag>, rp: seq<Flag>)
    requires |s| == |r| == |rp| + 1
    requires forall i :: 0 <= i < |rp| ==> r[i] == rp[i]
    ensures var n := |rp|;
      FreedSet(s, r) == FreedSet(s[..n], rp) + (if Active(s[n]) && Free(r[n]) then {n} else {})
  {
    var n := |rp|;
    assert forall i :: 0 <= i < n ==> s[..n][i] == s[i];
  }

  /** The count returned by freshenFlags equals the number of slots that went from active to free. */
  lemma {:induction false} CountStaleIsFreed(s: seq<Flag>, t: seq<Flag>, scan: int, top: int)
    ensures CountStale(s, t, scan) == |FreedSet(s, Recycled(s, t, scan, top))|
  {
    if |s| > 0 {
      var n := |s| - 1;
      var p := s[..n];
      CountStaleIsFreed(p, t, scan, top);
      var r, rp := Recycled(s, t, scan, top), Recycled(p, t, scan, top);
      RecycledPrefix(s, t, scan, top, n);
      FreedSetSnoc(s, r, rp);
      assert Active(s[n]) && Free(r[n]) <==> Recyclable(s[n], t, scan);
      assert n !in FreedSet(p, rp);
    }
  }

  /**
   * freshenFlags: -1 for `len <= 0` or `scan < 0`; otherwise it consolidates
   * the slots by colour, calls `outflag` on each stale entry (result -2 and
   * nothing modified when a call fails), then frees every slot of a stale
   * colour with a fresh colour and returns how many slots it freed.
   * `outflag` stands for the output callback; its effects are not modelled,
   * only its return code.
   */
  method FreshenFlags(flags: array<Flag>, len: int, scan: int, outflag: Flag -> int)
    returns (r: int, calls: seq<Flag>)
    requires len <= flags.Length
    modifies flags
    ensures len <= 0 || scan < 0 ==> r == -1 && calls == [] && flags[..] == old(flags[..])
    ensures len > 0 && scan >= 0 ==>
      var s := old(flags[..len]);
      var out := RunOutput(Consolidate(s), scan, outflag);
      calls == out.calls &&
      (out.failed ==> r == -2 && flags[..] == old(flags[..])) &&
      (!out.failed ==> (r == CountStale(s, Consolidate(s), scan) &&
         flags[..len] == Recycled(s, Consolidate(s), scan, TopColor(s)) &&
         flags[len..] == old(flags[len..])))
  {
    if len <= 0 { return -1, []; }
    if scan < 0 { return -1, []; }
    var table, tail, currColor := ConsolidateSlots(flags, len);
    var failed;
    calls, failed := ReportStale(table, tail, scan, outflag);
    if failed { return -2, calls; }
    r := RecycleSlots(flags, len, table, tail, scan, currColor);
  }

  /** The first loop of freshenFlags: builds `new[0..tail)` and `curr_color`. */
  method ConsolidateSlots(flags: array<Flag>, len: int) returns (table: array<Flag>, tail: nat, currColor: int)
    requires 0 < len <= flags.Length
    ensures fresh(table) && table.Length == len && tail <= len
    ensures table[..tail] == Consolidate(flags[..len])
    ensures currColor == TopColor(flags[..len])
  {
    ghost var s := flags[..len];
    table := new Flag[len];
    currColor, tail := -1, 0;
    var a := 0;
    while a < len
      invariant 0 <= a <= len && 0 <= tail <= a
      invariant table[..tail] == Consolidate(s[..a])
      invariant currColor == TopColor(s[..a])
    {
      assert s[..a + 1][..a] == s[..a];
      assert s[a] == flags[a];
      TopColorBounds(s[..a]);
      if flags[a].lastSeen != AVAILABLE {
        var grown;
        tail, grown := AbsorbSlot(table, tail, flags[a]);
        if grown {
          if currColor < flags[a].color { currColor := flags[a].color; }
        } else {
          ConsolidateColors(s[..a]);
          ghost var a' :| 0 <= a' < a && Active(s[..a][a']) && s[..a][a'].color == flags[a].color;
        }
      }
      a := a + 1;
    }
    assert s[..len] == s;
  }

  /**
   * The inner loop of the consolidation: the active slot `f` raises the
   * last_seen of the entry of its colour, or is appended when its colour
   * has none (`grown`).
   */
  method AbsorbSlot(table: array<Flag>, tail: nat, f: Flag) returns (tail': nat, grown: bool)
    requires tail < table.Length && Active(f)
    modifies table
    ensures tail' == if grown then tail + 1 else tail
    ensures table[..tail'] == Absorb(old(table[..tail]), f)
    ensures !grown ==> HasColor(old(table[..tail]), f.color)
  {
    ghost var t := table[..tail];
    var b := 0;
    while b < tail
      invariant 0 <= b <= tail && table[..tail] == t
      invariant forall j :: 0 <= j < b ==> t[j].color != f.color
    {
      if f.color == table[b].color {
        break;
      }
      b := b + 1;
    }
    assert FindColor(t, f.color) == b;
    if b == tail {
      table[tail] := f;
      assert table[..tail + 1] == t + [f];
      return tail + 1, true;
    }
    if table[b].lastSeen < f.lastSeen {
      table[b] := table[b].(lastSeen := f.lastSeen);
    }
    assert table[..tail] == t[b := Flag(t[b].color, Max(t[b].lastSeen, f.lastSeen))];
    return tail, false;
  }

  /** The second loop of freshenFlags: passes each stale entry to `outflag`, stopping at a failure. */
  method ReportStale(table: array<Flag>, tail: nat, scan: int, outflag: Flag -> int)
    returns (calls: seq<Flag>, failed: bool)
    requires tail <= table.Length
    ensures Report(calls, failed) == RunOutput(table[..tail], scan, outflag)
  {
    ghost var t := table[..tail];
    calls, failed := [], false;
    var b := 0;
    while b < tail
      invariant 0 <= b <= tail
      invariant RunOutput(t[..b], scan, outflag) == Report(calls, false)
    {
      assert t[..b + 1][..b] == t[..b];
      if table[b].lastSeen < scan {
        var ret := outflag(table[b]);
        calls := calls + [table[b]];
        if ret != 0 {
          RunOutputStopsAtFailure(t, b + 1, scan, outflag);
          return calls, true;
        }
      }
      b := b + 1;
    }
    assert t[..tail] == t;
  }

  /** The third loop of freshenFlags: frees the slots of stale colours, giving them fresh colours. */
  method RecycleSlots(flags: array<Flag>, len: int, table: array<Flag>, tail: nat, scan: int, top: int)
    returns (cleared: int)
    requires 0 < len <= flags.Length && tail <= table.Length && table != flags
    modifies flags
    ensures flags[..len] == Recycled(old(flags[..len]), table[..tail], scan, top)
    ensures flags[len..] == old(flags[len..])
    ensures cleared == CountStale(old(flags[..len]), table[..tail], scan)
  {
    ghost var s := flags[..len];
    ghost var t := table[..tail];
    ghost var rec := Recycled(s, t, scan, top);
    var currColor := top;
    cleared := 0;
    var a := 0;
    while a < len
      invariant 0 <= a <= len
      invariant flags[..a] == rec[..a]
      invariant flags[a..] == old(flags[a..])
      invariant currColor == top + CountStale(s[..a], t, scan)
      invariant cleared == CountStale(s[..a], t, scan)
    {
      assert s[..a + 1][..a] == s[..a];
      assert flags[a] == s[a];
      if flags[a].lastSeen != AVAILABLE {
        var b := 0;
        while b < tail
          invariant 0 <= b <= tail
          invariant forall j :: 0 <= j < b ==> table[j].color != flags[a].color
          invariant flags[a] == s[a]
        {
          if flags[a].color == table[b].color {
            if table[b].lastSeen < scan {
              currColor := currColor + 1;
              flags[a] := Flag(currColor, AVAILABLE);
              cleared := cleared + 1;
            }
            break;
          }
          b := b + 1;
        }
      }
      assert flags[a] == rec[a];
      a := a + 1;
    }
    assert s[..len] == s;
  }

  /** Once a call fails, later entries are not reported. */
  lemma {:induction false} RunOutputStopsAtFailure(t: seq<Flag>, n: nat, scan: int, outflag: Flag -> int)
    requires n <= |t| && RunOutput(t[..n], scan, outflag).failed
    ensures RunOutput(t, scan, outflag) == RunOutput(t[..n], scan, outflag)
    decreases |t| - n
  {
    if n < |t| {
      assert t[..n + 1][..n] == t[..n];
      RunOutputStopsAtFailure(t, n + 1, scan, outflag);
    } else {
      assert t[..n] == t;
    }
  }
}
