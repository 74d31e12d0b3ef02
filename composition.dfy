/**
 * The elemental composition of a peptide in the isotopic profiler
 * (10_utils/isotopic_profiler/Isotopic-Fast-Profiles.cpp): the per-residue
 * counting loop, the clamping of the charge and of the deuteration
 * percentage, and the table of isotopes read from the abundance file.
 */
module Composition {
  import opened Common

  /**
   * Atom counts of a peptide (carbon, hydrogen, nitrogen, oxygen, sulfur)
   * and the number of fast-exchanging side-chain hydrogens.
   */
  datatype Counts = Counts(c: int, h: int, n: int, o: int, s: int, sideDeut: int)

  function Add(a: Counts, b: Counts): Counts {
    Counts(a.c + b.c, a.h + b.h, a.n + b.n, a.o + b.o, a.s + b.s, a.sideDeut + b.sideDeut)
  }

  const ZERO := Counts(0, 0, 0, 0, 0, 0)

  /**
   * The termini: one C-terminal oxygen, three terminal hydrogens (one
   * C-terminal, two N-terminal) and four exchanging terminal hydrogens.
   */
  const START := Counts(0, 3, 0, 1, 0, 4)

  /** What one residue adds; a character that is not one of the twenty letters adds nothing. */
  function Residue(r: char): Counts {
    match r
    case 'A' => Counts(3, 5, 1, 1, 0, 0)
    case 'C' => Counts(3, 5, 1, 1, 1, 1)
    case 'D' => Counts(4, 5, 1, 3, 0, 1)
    case 'E' => Counts(5, 7, 1, 3, 0, 1)
    case 'F' => Counts(9, 9, 1, 1, 0, 0)
    case 'G' => Counts(2, 3, 1, 1, 0, 0)
    case 'H' => Counts(6, 7, 3, 1, 0, 1)
    case 'I' => Counts(6, 11, 1, 1, 0, 0)
    case 'K' => Counts(6, 12, 2, 1, 0, 2)
    case 'L' => Counts(6, 11, 1, 1, 0, 0)
    case 'M' => Counts(5, 9, 1, 1, 1, 0)
    case 'N' => Counts(4, 6, 2, 2, 0, 2)
    case 'P' => Counts(5, 7, 1, 1, 0, 0)
    case 'Q' => Counts(5, 8, 2, 2, 0, 2)
    case 'R' => Counts(6, 12, 4, 1, 0, 4)
    case 'S' => Counts(3, 5, 1, 2, 0, 1)
    case 'T' => Counts(4, 7, 1, 2, 0, 1)
    case 'V' => Counts(5, 9, 1, 1, 0, 0)
    case 'W' => Counts(11, 10, 2, 1, 0, 1)
    case 'Y' => Counts(9, 9, 1, 2, 0, 1)
    case _ => ZERO
  }

  predicate Recognised(r: char) {
    r in "ACDEFGHIKLMNPQRSTVWY"
  }

  /** The sum of the weights `w` of the elements of `s`. */
  function SumOf<T>(w: T -> Counts, s: seq<T>): Counts {
    if |s| == 0 then ZERO else Add(SumOf(w, s[..|s| - 1]), w(s[|s| - 1]))
  }

  /** The sum of the residue contributions of a sequence. */
  function Sum(sq: string): Counts {
    SumOf(Residue, sq)
  }

  /** A character other than the twenty residue letters has no atoms. */
  lemma UnrecognisedIsZero(r: char)
    requires !Recognised(r)
    ensures Residue(r) == ZERO
  {
  }

  /** The counts after the residues of `sq`, starting from the termini. */
  function Composition(sq: string): Counts {
    if |sq| == 0 then START else Add(Composition(sq[..|sq| - 1]), Residue(sq[|sq| - 1]))
  }

  /**
   * The counting loop for one sequence: the counts start at the termini
   * and every character adds its residue's atoms.
   */
  method CountComposition(sq: string) returns (r: Counts)
    ensures r == Composition(sq)
  {
    r := START;
    var i := 0;
    while i < |sq|
      invariant 0 <= i <= |sq|
      invariant r == Composition(sq[..i])
    {
      assert sq[..i + 1][..i] == sq[..i];
      r := Add(r, Residue(sq[i]));
      i := i + 1;
    }
    assert sq[..i] == sq;
  }

  /** The composition is the termini plus the sum of the residue contributions. */
  lemma {:induction false} CompositionIsSum(sq: string)
    ensures Composition(sq) == Add(START, Sum(sq))
    decreases |sq|
  {
    if |sq| > 0 {
      CompositionIsSum(sq[..|sq| - 1]);
    }
  }

  /** The weights of two pieces add up. */
  lemma {:induction false} SumAppend<T>(w: T -> Counts, a: seq<T>, b: seq<T>)
    ensures SumOf(w, a + b) == Add(SumOf(w, a), SumOf(w, b))
    decreases |b|
  {
    if |b| == 0 {
      assert a + b == a;
    } else {
      var n := |b| - 1;
      assert (a + b)[..|a + b| - 1] == a + b[..n];
      SumAppend(w, a, b[..n]);
    }
  }

  /** A sum of weights does not depend on the order of the elements. */
  lemma {:induction false} SumPermutation<T>(w: T -> Counts, a: seq<T>, b: seq<T>)
    requires multiset(a) == multiset(b)
    ensures SumOf(w, a) == SumOf(w, b)
    decreases |a|
  {
    if |a| == 0 {
      assert |b| == |multiset(b)| == 0;
    } else {
      var n := |a| - 1;
      var x := a[n];
      assert a == a[..n] + [x];
      assert x in multiset(b);
      var i :| 0 <= i < |b| && b[i] == x;
      var u, v := b[..i], b[i + 1..];
      assert b == (u + [x]) + v;
      RemoveOne(a[..n], u, v, x);
      SumPermutation(w, a[..n], u + v);
      SumMiddle(w, u, x, v);
    }
  }

  /** Taking one `x` from both sides of a permutation leaves a permutation. */
  lemma RemoveOne<T>(a: seq<T>, u: seq<T>, v: seq<T>, x: T)
    requires multiset(a + [x]) == multiset((u + [x]) + v)
    ensures multiset(a) == multiset(u + v)
  {
    calc {
      multiset(a);
      multiset(a + [x]) - multiset{x};
      multiset((u + [x]) + v) - multiset{x};
      multiset(u + v);
    }
  }

  /** An element in the middle of a sequence counts as if it came last. */
  lemma SumMiddle<T>(w: T -> Counts, u: seq<T>, x: T, v: seq<T>)
    ensures SumOf(w, (u + [x]) + v) == Add(SumOf(w, u + v), w(x))
  {
    SumAppend(w, u + [x], v);
    SumAppend(w, u, v);
    assert (u + [x])[..|u|] == u;
    calc {
      SumOf(w, (u + [x]) + v);
      Add(SumOf(w, u + [x]), SumOf(w, v));
      Add(Add(SumOf(w, u), w(x)), SumOf(w, v));
      { AddSwap(SumOf(w, u), SumOf(w, v), w(x)); }
      Add(Add(SumOf(w, u), SumOf(w, v)), w(x));
      Add(SumOf(w, u + v), w(x));
    }
  }

  lemma AddSwap(p: Counts, q: Counts, r: Counts)
    ensures Add(Add(p, q), r) == Add(Add(p, r), q)
  {
  }

  /** The composition of a peptide does not depend on the order of its residues. */
  lemma CompositionOrderFree(a: string, b: string)
    requires multiset(a) == multiset(b)
    ensures Composition(a) == Composition(b)
  {
    SumPermutation(Residue, a, b);
    CompositionIsSum(a);
    CompositionIsSum(b);
  }

  /** Counting a concatenation continues from the counts of the first piece. */
  lemma CompositionAdds(a: string, b: string)
    ensures Composition(a + b) == Add(Composition(a), Sum(b))
  {
    SumAppend(Residue, a, b);
    CompositionIsSum(a + b);
    CompositionIsSum(a);
  }

  /** A charge outside 0..7 becomes 1; a missing charge is 1 as well. */
  function Charge(parsed: Option<int>): (z: int)
    ensures 0 <= z <= 7
    ensures parsed.Some? && 0 <= parsed.value <= 7 ==> z == parsed.value
    ensures parsed.None? || parsed.value < 0 || parsed.value > 7 ==> z == 1
  {
    var charge := if parsed.Some? then parsed.value else 1;
    if charge < 0 || charge > 7 then 1 else charge
  }

  /** A deuteration percentage above 99.9 or below 0 becomes 5. */
  function PercentDeut(p: real): (q: real)
    ensures 0.0 <= q <= 99.9
    ensures 0.0 <= p <= 99.9 ==> q == p
    ensures p > 99.9 || p < 0.0 ==> q == 5.0
  {
    if p > 99.9 || p < 0.0 then 5.0 else p
  }

  /** An isotope: element name, offset from the main isotope, abundance and mass of the main isotope. */
  datatype Isotope = Isotope(element: string, offset: int, p: real, massEle: real)

  /** The isotope types used when no abundance file is given. */
  function StandardIsotopes(): (r: seq<Isotope>)
    ensures |r| == 7
    ensures forall i :: 0 <= i < |r| ==> r[i].offset >= 1 && r[i].element in {"H", "C", "N", "O", "S"}
  {
    [ Isotope("H", 1, 0.000150, 1.007825), Isotope("C", 1, 0.011070, 12.00000),
      Isotope("N", 1, 0.003663, 14.00307), Isotope("O", 1, 0.000375, 15.99491),
      Isotope("O", 2, 0.002035, 15.99491), Isotope("S", 1, 0.00760, 31.97207),
      Isotope("S", 2, 0.04290, 31.97207) ]
  }

  /** Of the rows of the abundance file (None where the four fields did not parse), those with offset at least 1. */
  function Accepted(rows: seq<Option<Isotope>>): seq<Isotope> {
    if |rows| == 0 then []
    else
      var r := rows[|rows| - 1];
      Accepted(rows[..|rows| - 1]) + (if r.Some? && r.value.offset >= 1 then [r.value] else [])
  }

  lemma {:induction false} AcceptedMembers(rows: seq<Option<Isotope>>)
    ensures forall e :: e in Accepted(rows) <==> Some(e) in rows && e.offset >= 1
  {
    if |rows| > 0 {
      var n := |rows| - 1;
      AcceptedMembers(rows[..n]);
      assert rows == rows[..n] + [rows[n]];
    }
  }

  /** The run ends with exit code 2 once 99 isotopes are stored. */
  datatype Table = Loaded(isotopes: seq<Isotope>) | Abort(code: int)

  /**
   * The reading loop over the abundance file: a row is stored when its
   * four fields parse and its offset is at least 1, and the run aborts as
   * soon as 99 are stored.
   */
  method ReadIsotopes(rows: seq<Option<Isotope>>) returns (t: Table)
    ensures t.Loaded? <==> |Accepted(rows)| < 99
    ensures t.Loaded? ==> t.isotopes == Accepted(rows)
    ensures t.Abort? ==> t.code == 2
  {
    var stored: seq<Isotope> := [];
    var i := 0;
    while i < |rows|
      invariant 0 <= i <= |rows| && stored == Accepted(rows[..i]) && |stored| < 99
    {
      assert rows[..i + 1][..i] == rows[..i];
      var r := rows[i];
      if r.Some? && r.value.offset >= 1 {
        stored := stored + [r.value];
        if |stored| >= 99 {
          AcceptedGrows(rows, i + 1);
          return Abort(2);
        }
      }
      i := i + 1;
    }
    assert rows[..i] == rows;
    return Loaded(stored);
  }

  /** Reading more rows never stores fewer isotopes. */
  lemma {:induction false} AcceptedGrows(rows: seq<Option<Isotope>>, k: nat)
    requires k <= |rows|
    ensures |Accepted(rows[..k])| <= |Accepted(rows)|
    decreases |rows| - k
  {
    if k < |rows| {
      AcceptedGrows(rows, k + 1);
      assert rows[..k + 1][..k] == rows[..k];
    } else {
      assert rows[..k] == rows;
    }
  }
}
