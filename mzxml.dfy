/**
 * The mzXML helpers of the preprocessor (01_preprocess/src/mxmlmzXML.c):
 * the xs:duration to seconds conversion, the load and whitespace callbacks
 * and the per-word byte swaps applied to the peak list on loading and
 * saving.
 *
 * The duration parser follows the lexical form of section 3.2.6 of W3C XML
 * Schema Part 2: Datatypes without validating it: every number before a
 * designator is scaled and summed, with 30-day months and 360-day years.
 * Numbers are read as `atof` reads them, which is modelled below for
 * decimal notation.
 */
module MzXml {

  // ----- atof -----

  predicate IsSpace(c: char) {
    c == ' ' || c == '\t' || c == '\n' || c == '\r' || c == '\U{B}' || c == '\U{C}'
  }

  predicate IsDigit(c: char) { '0' <= c <= '9' }

  /** Where `atof` is in its reading of a decimal number. */
  datatype Phase = Lead | Signed | Whole | Frac | Done

  /**
   * What `atof` has read so far: the sign, the digits before the point as
   * a number, the digits after it as a number and how many there are.
   */
  datatype Num = Num(phase: Phase, neg: bool, whole: nat, frac: nat, places: nat)

  const NUM_START := Num(Lead, false, 0, 0, 0)

  /** The first character of the digits: a digit, a point, or the end of the number. */
  function Begin(st: Num, c: char): Num {
    if IsDigit(c) then st.(phase := Whole, whole := (c - '0') as nat)
    else if c == '.' then st.(phase := Frac)
    else st.(phase := Done)
  }

  /** One character more: leading white space and a sign, then digits, a point, digits. */
  function AtofStep(st: Num, c: char): Num {
    match st.phase
    case Done => st
    case Lead =>
      if IsSpace(c) then st
      else if c == '+' then st.(phase := Signed)
      else if c == '-' then st.(phase := Signed, neg := true)
      else Begin(st, c)
    case Signed => Begin(st, c)
    case Whole =>
      if IsDigit(c) then st.(whole := st.whole * 10 + (c - '0') as nat)
      else if c == '.' then st.(phase := Frac)
      else st.(phase := Done)
    case Frac =>
      if IsDigit(c) then st.(frac := st.frac * 10 + (c - '0') as nat, places := st.places + 1)
      else st.(phase := Done)
  }

  function Reading(s: string): Num {
    if |s| == 0 then NUM_START else AtofStep(Reading(s[..|s| - 1]), s[|s| - 1])
  }

  function Pow10(k: nat): (p: nat)
    ensures p >= 1
  {
    if k == 0 then 1 else 10 * Pow10(k - 1)
  }

  function Value(st: Num): real {
    var v := st.whole as real + st.frac as real / Pow10(st.places) as real;
    if st.neg then -v else v
  }

  /** atof: the decimal number at the start of `s`, 0 when there is none. */
  function Atof(s: string): real {
    Value(Reading(s))
  }

  /** Once the number has ended, nothing after it is read. */
  lemma {:induction false} ReadingStops(u: string, v: string)
    requires Reading(u).phase == Done
    ensures Reading(u + v) == Reading(u)
    decreases |v|
  {
    if |v| == 0 {
      assert u + v == u;
    } else {
      var w := v[..|v| - 1];
      assert (u + v)[..|u + v| - 1] == u + w;
      assert (u + v)[|u + v| - 1] == v[|v| - 1];
      ReadingStops(u, w);
      assert Reading(u + v) == AtofStep(Reading(u + w), v[|v| - 1]);
    }
  }

  // ----- xsduration_to_s -----

  /** The designators that close a number: seconds, minutes or months, hours, days, years. */
  predicate IsUnit(c: char) {
    c == 'S' || c == 'M' || c == 'H' || c == 'D' || c == 'Y'
  }

  /** A designator: a unit, or the `T` that starts the time part. */
  predicate IsDesignator(c: char) {
    c == 'T' || IsUnit(c)
  }

  /** A designator ends any number `atof` is reading. */
  lemma AtofCut(w: string, j: nat)
    requires j < |w| && IsDesignator(w[j])
    ensures Atof(w) == Atof(w[..j])
  {
    assert w[..j + 1][..j] == w[..j];
    assert w == w[..j + 1] + w[j + 1..];
    ReadingStops(w[..j + 1], w[j + 1..]);
  }

  /**
   * `v` units in seconds; `M` is a minute after the `T` and a 30-day month
   * before it, a year is 12 such months.
   */
  function Seconds(v: real, d: char, t: bool): real
    requires IsUnit(d)
  {
    match d
    case 'S' => v
    case 'M' => if t then v * 60.0 else v * 2592000.0
    case 'H' => v * 3600.0
    case 'D' => v * 86400.0
    case 'Y' => v * 31104000.0
  }

  /** The loop state: seconds so far, start of the current number, and whether `T` was passed. */
  datatype Parse = Parse(secs: real, n: nat, t: bool)

  /** The loop body at index `i`. */
  function Step(str: string, p: Parse, i: nat): Parse
    requires p.n <= i < |str|
  {
    if str[i] == 'T' then Parse(p.secs, i + 1, true)
    else if IsUnit(str[i]) then Parse(p.secs + Seconds(Atof(str[p.n..]), str[i], p.t), i + 1, p.t)
    else p
  }

  /**
   * The state after the characters at 1 .. k-1 (the first character, the
   * `P`, is skipped), with the first number starting at `n0`.
   */
  function Fold(str: string, n0: nat, k: nat): (p: Parse)
    requires n0 <= 1 && k <= |str|
    ensures p.n == n0 || 1 < p.n <= k
  {
    if k <= 1 then Parse(0.0, n0, false) else Step(str, Fold(str, n0, k - 1), k - 1)
  }

  /** xsduration_to_s as written: the first number starts at index 0, on the `P`. */
  function DurationAsWritten(str: string): real {
    Fold(str, 0, |str|).secs
  }

  /** The seconds of `str`, with the first number starting after the `P`. */
  function Duration(str: string): real {
    Fold(str, 1, |str|).secs
  }

  /**
   * xsduration_to_s, with the start of the first number placed after the
   * leading `P`.
   */
  method XsDurationToS(str: string) returns (s: real)
    ensures s == Duration(str)
  {
    s := 0.0;
    var n, t := 1, false;
    var i := 1;
    while i < |str|
      invariant 1 <= i && (i <= |str| || |str| == 0)
      invariant Parse(s, n, t) == Fold(str, 1, if i <= |str| then i else 0)
    {
      if str[i] == 'T' {
        t := true;
        n := i + 1;
      } else if str[i] == 'S' || str[i] == 'M' || str[i] == 'H' || str[i] == 'D' || str[i] == 'Y' {
        s := s + Seconds(Atof(str[n..]), str[i], t);
        n := i + 1;
      }
      i := i + 1;
    }
  }

  /** The first `k` characters fix the state after them, whatever follows. */
  lemma {:induction false} FoldPrefix(a: string, b: string, n0: nat, k: nat)
    requires n0 <= 1 && k <= |a|
    ensures Fold(a + b, n0, k) == Fold(a, n0, k)
  {
    if k > 1 {
      FoldPrefix(a, b, n0, k - 1);
      var p := Fold(a, n0, k - 1);
      var i := k - 1;
      assert (a + b)[i] == a[i];
      if IsUnit(a[i]) {
        AtofCut((a + b)[p.n..], i - p.n);
        AtofCut(a[p.n..], i - p.n);
        assert (a + b)[p.n..][..i - p.n] == a[p.n..][..i - p.n];
      }
    }
  }

  /** Characters that are not designators leave the state as it is. */
  lemma {:induction false} FoldSkips(str: string, n0: nat, k: nat, m: nat)
    requires n0 <= 1 && 1 <= k <= m <= |str|
    requires forall i :: k <= i < m ==> !IsDesignator(str[i])
    ensures Fold(str, n0, m) == Fold(str, n0, k)
    decreases m
  {
    if m > k {
      FoldSkips(str, n0, k, m - 1);
    }
  }

  /**
   * A number followed by a unit adds that number of units: when a field
   * starts at index k (the start of the string after the `P`, or just
   * after a designator), holds no designator up to index m and is closed
   * by the unit at m, the seconds grow by atof of the field in that unit.
   */
  lemma FieldAdds(w: string, k: nat, m: nat)
    requires 1 <= k <= m < |w| && Fold(w, 1, k).n == k
    requires forall i :: k <= i < m ==> !IsDesignator(w[i])
    requires IsUnit(w[m])
    ensures var p := Fold(w, 1, k);
      Fold(w, 1, m + 1) == Parse(p.secs + Seconds(Atof(w[k..m]), w[m], p.t), m + 1, p.t)
  {
    FoldSkips(w, 1, k, m);
    AtofCut(w[k..], m - k);
    assert w[k..][..m - k] == w[k..m];
  }

  /** A string without units holds no seconds; in particular "P" gives 0. */
  lemma {:induction false} NoUnitsNoSeconds(str: string, k: nat)
    requires k <= |str|
    requires forall i :: 1 <= i < k ==> !IsUnit(str[i])
    ensures Fold(str, 1, k).secs == 0.0
  {
    if k > 1 {
      NoUnitsNoSeconds(str, k - 1);
    }
  }

  /**
   * When the duration has no date part (it starts with "PT"), the code as
   * written and the corrected start agree.
   */
  lemma AgreeAfterT(str: string)
    requires |str| >= 2 && str[1] == 'T'
    ensures DurationAsWritten(str) == Duration(str)
  {
    AgreeFrom(str, |str|);
  }

  lemma {:induction false} AgreeFrom(str: string, k: nat)
    requires 2 <= k <= |str| && str[1] == 'T'
    ensures Fold(str, 0, k) == Fold(str, 1, k)
  {
    if k > 2 {
      AgreeFrom(str, k - 1);
    }
  }

  /** As written, "P1D" reads the number from the `P` and gives 0 instead of one day. */
  lemma FirstFieldLost()
    ensures DurationAsWritten("P1D") == 0.0
    ensures Duration("P1D") == 86400.0
  {
    var s := "P1D";
    assert Fold(s, 0, 2) == Parse(0.0, 0, false);
    assert Fold(s, 1, 2) == Parse(0.0, 1, false);
    assert s[0..] == s && s[1..] == "1D";
    AtofOfP1D();
    AtofOf1D();
  }

  lemma AtofOfP1D()
    ensures Atof("P1D") == 0.0
  {
    var s := "P1D";
    assert s[..1] == "P" && s[..2] == "P1";
    assert Reading("P") == AtofStep(NUM_START, 'P');
    ReadingStops("P", "1D");
    assert "P" + "1D" == s;
  }

  lemma AtofOf1D()
    ensures Atof("1D") == 1.0
  {
    var s := "1D";
    assert s[..1] == "1";
    assert Reading("1") == AtofStep(NUM_START, '1');
    assert Reading(s) == AtofStep(Reading("1"), 'D');
  }

  // ----- callbacks -----

  datatype NodeType = Custom | Opaque

  /** mzXML_load_cb: the peak lists are loaded by the custom handler, everything else as text. */
  function LoadCb(name: string): (r: NodeType)
    ensures r == Custom <==> name == "peaks"
  {
    if name == "peaks" then Custom else Opaque
  }

  /** Where the writer asks for white space; Other stands for any other value. */
  datatype WsWhere = BeforeOpen | AfterOpen | BeforeClose | AfterClose | Other(code: int)

  /** A whitespace answer: no text (NULL), a text, or the program exits with a code. */
  datatype WsAnswer = NoText | Text(s: string) | Exit(code: int)

  /** mzXML_whitespace_cb: a newline after every tag, nothing before one, exit 129 otherwise. */
  function WhitespaceCb(where: WsWhere): (r: WsAnswer)
    ensures r == NoText <==> where == BeforeOpen || where == BeforeClose
    ensures r == Text("\n") <==> where == AfterOpen || where == AfterClose
    ensures r == Exit(129) <==> where.Other?
  {
    match where
    case BeforeOpen => NoText
    case BeforeClose => NoText
    case AfterOpen => Text("\n")
    case AfterClose => Text("\n")
    case Other(_) => Exit(129)
  }

  // ----- byte order of the peak list -----

  /** An octet of the decoded peak list. */
  newtype Byte = b: int | 0 <= b < 256

  function Reverse(s: seq<Byte>): (r: seq<Byte>)
    ensures |r| == |s|
    ensures forall i :: 0 <= i < |s| ==> r[i] == s[|s| - 1 - i]
  {
    if |s| == 0 then [] else Reverse(s[1..]) + [s[0]]
  }

  /**
   * The buffer with the bytes of each whole `w`-byte word reversed, as
   * be32toh/be64toh (and htobe32/htobe64) do on a little-endian host; a
   * partial word at the end is left alone.
   */
  function SwapWords(s: seq<Byte>, w: nat): (r: seq<Byte>)
    requires w > 0
    ensures |r| == |s|
    decreases |s|
  {
    if |s| < w then s else Reverse(s[..w]) + SwapWords(s[w..], w)
  }

  lemma ReverseTwice(s: seq<Byte>)
    ensures Reverse(Reverse(s)) == s
  {
  }

  /** Swapping twice restores the buffer: saving undoes loading. */
  lemma {:induction false} SwapWordsInvolution(s: seq<Byte>, w: nat)
    requires w > 0
    ensures SwapWords(SwapWords(s, w), w) == s
    decreases |s|
  {
    if |s| >= w {
      var r := SwapWords(s, w);
      ReverseTwice(s[..w]);
      assert r[..w] == Reverse(s[..w]);
      assert r[w..] == SwapWords(s[w..], w);
      SwapWordsInvolution(s[w..], w);
      assert s == s[..w] + s[w..];
    }
  }

  /** Word size in bytes for a precision attribute: 4 for "32", 8 otherwise. */
  function WordSize(precision: string): (w: nat)
    ensures w == 4 || w == 8
  {
    if precision == "32" then 4 else 8
  }

  /** The word loop: every whole `w`-byte word of the buffer has its bytes reversed in place. */
  method SwapInPlace(buf: array<Byte>, w: nat)
    requires w == 4 || w == 8
    modifies buf
    ensures buf[..] == SwapWords(old(buf[..]), w)
  {
    ghost var s := buf[..];
    ghost var done: seq<Byte> := [];
    var p := 0;
    while buf.Length - p >= w
      invariant 0 <= p <= buf.Length && |done| == p
      invariant buf[..] == done + s[p..]
      invariant SwapWords(s, w) == done + SwapWords(s[p..], w)
      decreases buf.Length - p
    {
      SwapAdvance(s, done, p, w);
      ReverseWord(buf, p, w);
      done := done + Reverse(s[p..p + w]);
      p := p + w;
    }
  }

  /** Reversing the word at `p` extends the swapped prefix `done` by one word. */
  lemma SwapAdvance(s: seq<Byte>, done: seq<Byte>, p: nat, w: nat)
    requires w > 0 && p + w <= |s| && |done| == p
    requires SwapWords(s, w) == done + SwapWords(s[p..], w)
    ensures SwapWords(s, w) == (done + Reverse(s[p..p + w])) + SwapWords(s[p + w..], w)
    ensures var b := done + s[p..]; b[..p] == done && b[p..p + w] == s[p..p + w] && b[p + w..] == s[p + w..]
    ensures (done + Reverse(s[p..p + w])) + s[p + w..] == done + Reverse(s[p..p + w]) + s[p + w..]
  {
    SwapWordsStep(s, p, w);
    Associative(done, Reverse(s[p..p + w]), SwapWords(s[p + w..], w));
    var b := done + s[p..];
    assert b[p..p + w] == s[p..][..w] && b[p + w..] == s[p..][w..];
  }

  lemma Associative(a: seq<Byte>, b: seq<Byte>, c: seq<Byte>)
    ensures a + (b + c) == (a + b) + c
  {
  }

  lemma SwapWordsStep(s: seq<Byte>, p: nat, w: nat)
    requires w > 0 && p + w <= |s|
    ensures SwapWords(s[p..], w) == Reverse(s[p..p + w]) + SwapWords(s[p + w..], w)
  {
    assert s[p..][..w] == s[p..p + w] && s[p..][w..] == s[p + w..];
  }

  /** One word: the bytes p .. p+w-1 are reversed, the others kept. */
  method ReverseWord(buf: array<Byte>, p: nat, w: nat)
    requires p + w <= buf.Length
    modifies buf
    ensures buf[..] == old(buf[..p]) + Reverse(old(buf[p..p + w])) + old(buf[p + w..])
  {
    var word := buf[p..p + w];
    var k := 0;
    while k < w
      invariant 0 <= k <= w
      invariant forall j :: 0 <= j < p ==> buf[j] == old(buf[j])
      invariant forall j :: p + w <= j < buf.Length ==> buf[j] == old(buf[j])
      invariant forall j :: p <= j < p + k ==> buf[j] == word[w - 1 - (j - p)]
      invariant forall j :: p + k <= j < p + w ==> buf[j] == word[j - p]
    {
      buf[p + k] := word[w - 1 - k];
      k := k + 1;
    }
    ghost var r := old(buf[..p]) + Reverse(word) + old(buf[p + w..]);
    assert forall j :: 0 <= j < buf.Length ==> buf[j] == r[j];
    assert buf[..] == r;
  }

  /**
   * The byte-order part of mzXML_load_custom: the decoded list must hold
   * whole (mz, I) pairs, 8 bytes each for precision "32" and 16 otherwise,
   * or the assertion stops the program (false); then each word is turned
   * to host order.
   */
  method LoadSwap(buf: array<Byte>, precision: string) returns (ok: bool)
    modifies buf
    ensures ok <==> buf.Length % (2 * WordSize(precision)) == 0
    ensures ok ==> buf[..] == SwapWords(old(buf[..]), WordSize(precision))
    ensures !ok ==> buf[..] == old(buf[..])
  {
    var w := WordSize(precision);
    if buf.Length % (2 * w) != 0 {
      return false;
    }
    SwapInPlace(buf, w);
    return true;
  }

  /** The byte-order part of mzXML_save_custom: each word is turned back to network order. */
  method SaveSwap(buf: array<Byte>, precision: string)
    modifies buf
    ensures buf[..] == SwapWords(old(buf[..]), WordSize(precision))
  {
    SwapInPlace(buf, WordSize(precision));
  }

  /** Saving a loaded peak list gives back the bytes that were loaded. */
  lemma LoadSaveRoundTrip(loaded: seq<Byte>, precision: string)
    ensures SwapWords(SwapWords(loaded, WordSize(precision)), WordSize(precision)) == loaded
  {
    SwapWordsInvolution(loaded, WordSize(precision));
  }
}
