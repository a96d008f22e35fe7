/**
 * The string tail of `extract_attendance_percentage`: the search for
 *   (\d+)\s*\/\s*(\d+)\s*=\s*(\d+(\.\d+)?)
 * in the OCR text, and `float()` of the third group.
 *
 * A digit run in the pattern is always followed by whitespace, `/`, `=` or
 * `.`, none of which is a digit, and a whitespace run is always followed by
 * `/`, `=` or a digit, none of which is whitespace; so every run in a match
 * is maximal, and only the tail of the third group is left to the
 * backtracking matcher, whose greedy quantifiers take the longest tail. The
 * deterministic scan `Scan` below therefore finds the match Python's
 * `re.search` finds.
 */
module AttendanceParser {
  import opened Wrappers
  import opened Text

  /** Where each part of one match lies, for a match starting at some index `i`:
      numerator  s[i..numEnd], whitespace, '/' at `slash`, whitespace,
      denominator s[denStart..denEnd], whitespace, '=' at `eq`, whitespace,
      group 3 s[valStart..valEnd], whose integer part is s[valStart..wholeEnd]
      and whose fraction, when valEnd > wholeEnd, is s[wholeEnd + 1..valEnd]. */
  datatype Occurrence = Occurrence(
    numEnd: nat, slash: nat, denStart: nat, denEnd: nat,
    eq: nat, valStart: nat, wholeEnd: nat, valEnd: nat)

  /** The result handed to the upload route: the number, or the sentinel
      string "Could not extract attendance percentage." */
  datatype Extraction = Percentage(value: real) | NotFound

  /** `o` is a way for the pattern to match `s` starting at `i` (any way, not
      only the one the matcher prefers). */
  predicate IsOccurrence(s: string, i: nat, o: Occurrence) {
    && i < o.numEnd && AllIn(s, i, o.numEnd, IsDigit)
    && AllIn(s, o.numEnd, o.slash, IsSpace)
    && o.slash < |s| && s[o.slash] == '/'
    && AllIn(s, o.slash + 1, o.denStart, IsSpace)
    && o.denStart < o.denEnd && AllIn(s, o.denStart, o.denEnd, IsDigit)
    && AllIn(s, o.denEnd, o.eq, IsSpace)
    && o.eq < |s| && s[o.eq] == '='
    && AllIn(s, o.eq + 1, o.valStart, IsSpace)
    && o.valStart < o.wholeEnd && AllIn(s, o.valStart, o.wholeEnd, IsDigit)
    && (|| o.valEnd == o.wholeEnd
        || (&& o.wholeEnd < |s| && s[o.wholeEnd] == '.'
            && o.wholeEnd + 1 < o.valEnd && AllIn(s, o.wholeEnd + 1, o.valEnd, IsDigit)))
  }

  /** The choice greedy quantifiers make for the third group: the integer part
      is as long as possible, and the optional fraction is taken, in full,
      whenever a '.' followed by a digit comes next. */
  predicate IsGreedy(s: string, o: Occurrence) {
    && o.wholeEnd <= |s|
    && (o.wholeEnd == |s| || !IsDigit(s[o.wholeEnd]))
    && (if o.valEnd == o.wholeEnd
        then !(o.wholeEnd + 1 < |s| && s[o.wholeEnd] == '.' && IsDigit(s[o.wholeEnd + 1]))
        else o.valEnd <= |s| && (o.valEnd == |s| || !IsDigit(s[o.valEnd])))
  }

  /** The deterministic matcher at one start index. */
  function Scan(s: string, i: nat): (r: Option<Occurrence>)
    requires i <= |s|
    ensures r.Some? ==> IsOccurrence(s, i, r.value) && IsGreedy(s, r.value)
  {
    var numEnd := RunEnd(s, i, IsDigit);
    if numEnd == i then None else
    var slash := RunEnd(s, numEnd, IsSpace);
    if slash == |s| || s[slash] != '/' then None else
    var denStart := RunEnd(s, slash + 1, IsSpace);
    var denEnd := RunEnd(s, denStart, IsDigit);
    if denEnd == denStart then None else
    var eq := RunEnd(s, denEnd, IsSpace);
    if eq == |s| || s[eq] != '=' then None else
    var valStart := RunEnd(s, eq + 1, IsSpace);
    var wholeEnd := RunEnd(s, valStart, IsDigit);
    if wholeEnd == valStart then None else
    var valEnd :=
      if wholeEnd + 1 < |s| && s[wholeEnd] == '.' && IsDigit(s[wholeEnd + 1])
      then RunEnd(s, wholeEnd + 1, IsDigit) else wholeEnd;
    Some(Occurrence(numEnd, slash, denStart, denEnd, eq, valStart, wholeEnd, valEnd))
  }

  /** Whenever the pattern can match at `i` at all, the scan finds a match
      there, with the same numerator, separators and denominator. */
  lemma ScanComplete(s: string, i: nat, o: Occurrence)
    requires i <= |s|
    requires IsOccurrence(s, i, o)
    ensures Scan(s, i).Some?
    ensures var m := Scan(s, i).value;
      m.numEnd == o.numEnd && m.slash == o.slash && m.denStart == o.denStart
      && m.denEnd == o.denEnd && m.eq == o.eq && m.valStart == o.valStart
  {
    RunEndUnique(s, i, o.numEnd, IsDigit);
    RunEndUnique(s, o.numEnd, o.slash, IsSpace);
    RunEndUnique(s, o.slash + 1, o.denStart, IsSpace);
    RunEndUnique(s, o.denStart, o.denEnd, IsDigit);
    RunEndUnique(s, o.denEnd, o.eq, IsSpace);
    RunEndUnique(s, o.eq + 1, o.valStart, IsSpace);
  }

  /** The greedy match at `i`, when there is one, is the one the scan finds. */
  lemma GreedyIsScan(s: string, i: nat, o: Occurrence)
    requires i <= |s|
    requires IsOccurrence(s, i, o) && IsGreedy(s, o)
    ensures Scan(s, i) == Some(o)
  {
    ScanComplete(s, i, o);
    RunEndUnique(s, o.valStart, o.wholeEnd, IsDigit);
    if o.valEnd != o.wholeEnd {
      RunEndUnique(s, o.wholeEnd + 1, o.valEnd, IsDigit);
    }
  }

  /** There is at most one greedy match at a given start: the match Python
      reports is determined by the text and the start index. */
  lemma GreedyUnique(s: string, i: nat, o1: Occurrence, o2: Occurrence)
    requires i <= |s|
    requires IsOccurrence(s, i, o1) && IsGreedy(s, o1)
    requires IsOccurrence(s, i, o2) && IsGreedy(s, o2)
    ensures o1 == o2
  {
    GreedyIsScan(s, i, o1);
    GreedyIsScan(s, i, o2);
  }

  /** `re.search`: try each start index from `i` on, leftmost first. */
  function SearchFrom(s: string, i: nat): (r: Option<(nat, Occurrence)>)
    requires i <= |s|
    ensures r.Some? ==> i <= r.value.0 <= |s| && Scan(s, r.value.0) == Some(r.value.1)
    decreases |s| - i
  {
    match Scan(s, i)
    case Some(o) => Some((i, o))
    case None => if i == |s| then None else SearchFrom(s, i + 1)
  }

  /** A start the search passes over, before its result or with no result at
      all, is one where the scan fails. */
  lemma {:induction false} SearchFromSkips(s: string, i: nat, k: nat)
    requires i <= k <= |s|
    requires SearchFrom(s, i).None? || k < SearchFrom(s, i).value.0
    ensures Scan(s, k).None?
    decreases k - i
  {
    if i < k && Scan(s, i).None? {
      SearchFromSkips(s, i + 1, k);
    }
  }

  /** The search finds the leftmost start whose scan succeeds: every earlier
      start fails, and with no result every start up to |s| fails. */
  lemma SearchFromLeftmost(s: string, i: nat)
    requires i <= |s|
    ensures SearchFrom(s, i).Some? ==> forall k :: i <= k < SearchFrom(s, i).value.0 ==> Scan(s, k).None?
    ensures SearchFrom(s, i).None? ==> forall k :: i <= k <= |s| ==> Scan(s, k).None?
  {
    forall k | i <= k <= |s| && (SearchFrom(s, i).None? || k < SearchFrom(s, i).value.0)
      ensures Scan(s, k).None?
    {
      SearchFromSkips(s, i, k);
    }
  }

  /** The value of the digits after a decimal point. */
  function FractionValue(frac: string): (v: real)
    requires Digits(frac)
    ensures 0.0 <= v < 1.0 || frac == []
    ensures frac == [] ==> v == 0.0
  {
    if frac == [] then 0.0 else
    FractionBelowOne(frac);
    DigitsValue(frac) as real / Pow10(|frac|) as real
  }

  /** k fraction digits stand for less than one whole. */
  lemma FractionBelowOne(frac: string)
    requires Digits(frac)
    ensures 0.0 <= DigitsValue(frac) as real / Pow10(|frac|) as real < 1.0
  {
    DigitsBelowPow10(frac);
    RatioBelowOne(DigitsValue(frac) as real, Pow10(|frac|) as real);
  }

  lemma RatioBelowOne(n: real, d: real)
    requires 0.0 <= n < d
    ensures 0.0 <= n / d < 1.0
  {
  }

  /** `float()` of the third group, as an exact rational: the integer part plus
      the fraction digits over the matching power of ten. */
  function Group3Value(s: string, o: Occurrence): (v: real)
    requires o.valStart <= o.wholeEnd <= |s| && AllIn(s, o.valStart, o.wholeEnd, IsDigit)
    requires o.valEnd > o.wholeEnd ==> AllIn(s, o.wholeEnd + 1, o.valEnd, IsDigit)
    ensures v >= DigitsValue(s[o.valStart..o.wholeEnd]) as real
  {
    DigitsValue(s[o.valStart..o.wholeEnd]) as real
      + if o.valEnd > o.wholeEnd then FractionValue(s[o.wholeEnd + 1..o.valEnd]) else 0.0
  }

  /** The OCR text to percentage step: the third group of the leftmost match,
      or the failure sentinel. */
  function Extract(text: string): (r: Extraction)
    ensures r.Percentage? ==> r.value >= 0.0
  {
    match SearchFrom(text, 0)
    case None => NotFound
    case Some((_, o)) => Percentage(Group3Value(text, o))
  }

  /** The failure sentinel is returned exactly when the pattern occurs nowhere
      in the text. */
  lemma ExtractFailsIffNoOccurrence(text: string)
    ensures Extract(text) == NotFound <==> forall i: nat, o :: !IsOccurrence(text, i, o)
  {
    if Extract(text) == NotFound {
      SearchFromLeftmost(text, 0);
      forall i: nat, o | IsOccurrence(text, i, o) ensures false {
        ScanComplete(text, i, o);
      }
    } else {
      var (i, o) := SearchFrom(text, 0).value;
      assert IsOccurrence(text, i, o);
    }
  }

  /** A value is returned exactly from the leftmost position where the pattern
      occurs, and it is the third group of the greedy match there. */
  lemma ExtractLeftmost(text: string)
    requires Extract(text).Percentage?
    ensures exists i: nat, o ::
              && IsOccurrence(text, i, o) && IsGreedy(text, o)
              && Extract(text).value == Group3Value(text, o)
              && forall k: nat, o' :: k < i ==> !IsOccurrence(text, k, o')
  {
    var (i, o) := SearchFrom(text, 0).value;
    SearchFromLeftmost(text, 0);
    forall k: nat, o' | k < i ensures !IsOccurrence(text, k, o') {
      if IsOccurrence(text, k, o') {
        ScanComplete(text, k, o');
      }
    }
  }

  /** A text in which the pattern matches at index 0 gives the third group of
      the greedy match there. */
  lemma ExtractAtStart(s: string, o: Occurrence)
    requires IsOccurrence(s, 0, o) && IsGreedy(s, o)
    ensures Extract(s) == Percentage(Group3Value(s, o))
  {
    GreedyIsScan(s, 0, o);
    assert SearchFrom(s, 0) == Some((0, o));
  }

  /** The text `num sp1 / sp2 den sp3 = sp4 whole[.frac]`. */
  function Canonical(num: string, den: string, whole: string, frac: string,
                     sp1: string, sp2: string, sp3: string, sp4: string): string
  {
    num + sp1 + "/" + sp2 + den + sp3 + "=" + sp4 + whole + (if frac == [] then "" else "." + frac)
  }

  /** Each part of a canonical text has the characters its place allows, and
      the numerator, the denominator and the whole part are not empty. */
  predicate CanonicalPieces(num: string, den: string, whole: string, frac: string,
                            sp1: string, sp2: string, sp3: string, sp4: string)
  {
    && num != [] && den != [] && whole != []
    && Digits(num) && Digits(den) && Digits(whole) && Digits(frac)
    && Spaces(sp1) && Spaces(sp2) && Spaces(sp3) && Spaces(sp4)
  }

  /** What follows `whole[.frac]` cannot extend the number: no digit, and no
      '.' then a digit when there is no fraction yet. */
  predicate EndsNumber(frac: string, rest: string) {
    && (rest == [] || !IsDigit(rest[0]))
    && (frac == [] && |rest| > 1 && rest[0] == '.' ==> !IsDigit(rest[1]))
  }

  lemma SliceAllIn(s: string, lo: nat, hi: nat, part: string, p: char -> bool)
    requires lo <= hi <= |s| && s[lo..hi] == part
    requires forall k :: 0 <= k < |part| ==> p(part[k])
    ensures AllIn(s, lo, hi, p)
  {
    forall k | lo <= k < hi ensures p(s[k]) {
      assert s[k] == part[k - lo];
    }
  }

  /** The head `num sp1 / sp2 den sp3 = sp4` of a canonical text, followed by
      anything: where its parts lie. */
  lemma {:induction false} HeadParts(num: string, den: string,
                                     sp1: string, sp2: string, sp3: string, sp4: string,
                                     t: string)
    requires Digits(num) && Digits(den)
    requires Spaces(sp1) && Spaces(sp2) && Spaces(sp3) && Spaces(sp4)
    ensures var s := num + sp1 + "/" + sp2 + den + sp3 + "=" + sp4 + t;
      var a := |num|;
      var b := a + |sp1|;
      var c := b + 1 + |sp2|;
      var d := c + |den|;
      var e := d + |sp3|;
      var f := e + 1 + |sp4|;
      && AllIn(s, 0, a, IsDigit) && AllIn(s, a, b, IsSpace) && s[b] == '/'
      && AllIn(s, b + 1, c, IsSpace) && AllIn(s, c, d, IsDigit) && AllIn(s, d, e, IsSpace)
      && s[e] == '=' && AllIn(s, e + 1, f, IsSpace) && s[f..] == t
  {
    var s := num + sp1 + "/" + sp2 + den + sp3 + "=" + sp4 + t;
    var a := |num|;
    var b := a + |sp1|;
    var c := b + 1 + |sp2|;
    var d := c + |den|;
    var e := d + |sp3|;
    var f := e + 1 + |sp4|;
    assert AllIn(s, 0, a, IsDigit) && AllIn(s, a, b, IsSpace) && s[b] == '/' by {
      assert s[0..a] == num;
      SliceAllIn(s, 0, a, num, IsDigit);
      assert s[a..b] == sp1;
      SliceAllIn(s, a, b, sp1, IsSpace);
    }
    assert AllIn(s, b + 1, c, IsSpace) && AllIn(s, c, d, IsDigit) by {
      assert s[b + 1..c] == sp2;
      SliceAllIn(s, b + 1, c, sp2, IsSpace);
      assert s[c..d] == den;
      SliceAllIn(s, c, d, den, IsDigit);
    }
    assert AllIn(s, d, e, IsSpace) && s[e] == '=' && AllIn(s, e + 1, f, IsSpace) by {
      assert s[d..e] == sp3;
      SliceAllIn(s, d, e, sp3, IsSpace);
      assert s[e + 1..f] == sp4;
      SliceAllIn(s, e + 1, f, sp4, IsSpace);
    }
    assert s[f..] == t;
  }

  /** The tail `whole[.frac] rest` of a canonical text, placed at offset `f`. */
  lemma {:induction false} TailParts(s: string, f: nat, whole: string, frac: string, rest: string)
    requires Digits(whole) && Digits(frac)
    requires f <= |s| && s[f..] == whole + (if frac == [] then "" else "." + frac) + rest
    ensures var g := f + |whole|;
      && AllIn(s, f, g, IsDigit) && s[f..g] == whole
      && (frac != [] ==> g < |s| && s[g] == '.' && AllIn(s, g + 1, g + 1 + |frac|, IsDigit)
                         && s[g + 1..g + 1 + |frac|] == frac && s[g + 1 + |frac|..] == rest)
      && (frac == [] ==> s[g..] == rest)
  {
    var g := f + |whole|;
    if frac == [] {
      assert s[f..] == whole + rest;
      SplitAt(s, f, whole, rest);
      SliceAllIn(s, f, g, whole, IsDigit);
    } else {
      assert s[f..] == whole + ("." + (frac + rest));
      SplitAt(s, f, whole, "." + (frac + rest));
      SliceAllIn(s, f, g, whole, IsDigit);
      FractionAt(s, g, frac, rest);
    }
  }

  /** `.frac rest` placed at offset `g`. */
  lemma FractionAt(s: string, g: nat, frac: string, rest: string)
    requires Digits(frac)
    requires g <= |s| && s[g..] == "." + (frac + rest)
    ensures g < |s| && s[g] == '.' && AllIn(s, g + 1, g + 1 + |frac|, IsDigit)
    ensures s[g + 1..g + 1 + |frac|] == frac && s[g + 1 + |frac|..] == rest
  {
    SplitAt(s, g, ".", frac + rest);
    assert s[g] == s[g..g + 1][0];
    SplitAt(s, g + 1, frac, rest);
    SliceAllIn(s, g + 1, g + 1 + |frac|, frac, IsDigit);
  }

  /** A suffix that reads `a + b` splits into `a` then `b`. */
  lemma SplitAt(s: string, f: nat, a: string, b: string)
    requires f <= |s| && s[f..] == a + b
    ensures f + |a| <= |s| && s[f..f + |a|] == a && s[f + |a|..] == b
  {
    assert s[f..f + |a|] == (a + b)[..|a|];
    assert s[f + |a|..] == (a + b)[|a|..];
  }

  /** The positions of the parts of a canonical text. */
  function CanonicalParts(num: string, den: string, whole: string, frac: string,
                          sp1: string, sp2: string, sp3: string, sp4: string): Occurrence
  {
    var a := |num|;
    var b := a + |sp1|;
    var c := b + 1 + |sp2|;
    var d := c + |den|;
    var e := d + |sp3|;
    var f := e + 1 + |sp4|;
    var g := f + |whole|;
    Occurrence(a, b, c, d, e, f, g, if frac == [] then g else g + 1 + |frac|)
  }

  lemma CanonicalSplit(num: string, den: string, whole: string, frac: string,
                       sp1: string, sp2: string, sp3: string, sp4: string, rest: string)
    ensures Canonical(num, den, whole, frac, sp1, sp2, sp3, sp4) + rest
         == num + sp1 + "/" + sp2 + den + sp3 + "=" + sp4
            + (whole + (if frac == [] then "" else "." + frac) + rest)
  {
  }

  /** The parts of a canonical text form a match at 0. */
  lemma {:induction false} CanonicalOccurs(num: string, den: string, whole: string, frac: string,
                                           sp1: string, sp2: string, sp3: string, sp4: string,
                                           rest: string)
    requires CanonicalPieces(num, den, whole, frac, sp1, sp2, sp3, sp4)
    ensures var s := Canonical(num, den, whole, frac, sp1, sp2, sp3, sp4) + rest;
      var o := CanonicalParts(num, den, whole, frac, sp1, sp2, sp3, sp4);
      && IsOccurrence(s, 0, o)
      && s[o.valStart..] == whole + (if frac == [] then "" else "." + frac) + rest
  {
    var t := whole + (if frac == [] then "" else "." + frac) + rest;
    var s := Canonical(num, den, whole, frac, sp1, sp2, sp3, sp4) + rest;
    CanonicalSplit(num, den, whole, frac, sp1, sp2, sp3, sp4, rest);
    var o := CanonicalParts(num, den, whole, frac, sp1, sp2, sp3, sp4);
    HeadParts(num, den, sp1, sp2, sp3, sp4, t);
    TailParts(s, o.valStart, whole, frac, rest);
  }

  /** The match formed by the parts of a canonical text is the greedy one,
      and its third group is `whole[.frac]`. */
  lemma {:induction false} CanonicalMatch(s: string, num: string, den: string, whole: string, frac: string,
                                          sp1: string, sp2: string, sp3: string, sp4: string,
                                          rest: string)
    returns (o: Occurrence)
    requires s == Canonical(num, den, whole, frac, sp1, sp2, sp3, sp4) + rest
    requires CanonicalPieces(num, den, whole, frac, sp1, sp2, sp3, sp4)
    requires EndsNumber(frac, rest)
    ensures IsOccurrence(s, 0, o) && IsGreedy(s, o) && Scan(s, 0) == Some(o)
    ensures o.valStart <= o.wholeEnd <= |s| && s[o.valStart..o.wholeEnd] == whole
    ensures if frac == [] then o.valEnd == o.wholeEnd
            else o.wholeEnd < o.valEnd <= |s| && s[o.wholeEnd + 1..o.valEnd] == frac
  {
    o := CanonicalParts(num, den, whole, frac, sp1, sp2, sp3, sp4);
    CanonicalOccurs(num, den, whole, frac, sp1, sp2, sp3, sp4, rest);
    TailParts(s, o.valStart, whole, frac, rest);
    assert s[o.valEnd..] == rest;
    GreedyIsScan(s, 0, o);
  }

  /** The third group read off its integer part and its fraction. */
  lemma Group3Parts(s: string, o: Occurrence, whole: string, frac: string)
    requires o.valStart <= o.wholeEnd <= |s| && s[o.valStart..o.wholeEnd] == whole
    requires Digits(whole) && Digits(frac)
    requires if frac == [] then o.valEnd == o.wholeEnd
             else o.wholeEnd < o.valEnd <= |s| && s[o.wholeEnd + 1..o.valEnd] == frac
    ensures AllIn(s, o.valStart, o.wholeEnd, IsDigit)
    ensures o.valEnd > o.wholeEnd ==> AllIn(s, o.wholeEnd + 1, o.valEnd, IsDigit)
    ensures Group3Value(s, o) == DigitsValue(whole) as real + FractionValue(frac)
  {
    SliceAllIn(s, o.valStart, o.wholeEnd, whole, IsDigit);
    if frac != [] {
      SliceAllIn(s, o.wholeEnd + 1, o.valEnd, frac, IsDigit);
    }
  }

  /** A text that starts with a match gives that match's third group,
      unrounded and unclamped, whatever the numerator and the denominator say
      and whatever follows a complete number. */
  lemma {:induction false} ExtractCanonical(s: string, num: string, den: string, whole: string, frac: string,
                                            sp1: string, sp2: string, sp3: string, sp4: string,
                                            rest: string)
    requires s == Canonical(num, den, whole, frac, sp1, sp2, sp3, sp4) + rest
    requires CanonicalPieces(num, den, whole, frac, sp1, sp2, sp3, sp4)
    requires EndsNumber(frac, rest)
    ensures Extract(s) == Percentage(DigitsValue(whole) as real + FractionValue(frac))
  {
    var o := CanonicalMatch(s, num, den, whole, frac, sp1, sp2, sp3, sp4, rest);
    assert SearchFrom(s, 0) == Some((0, o));
    Group3Parts(s, o, whole, frac);
  }

  lemma Value75()
    ensures DigitsValue("75") == 75
  {
    assert "75"[..1] == "7" && "7"[..0] == [];
  }

  lemma ValueZeros()
    ensures DigitsValue("0") == 0 && DigitsValue("00") == 0
    ensures FractionValue("0") == 0.0 && FractionValue("00") == 0.0
  {
    assert "0"[..0] == [] && "00"[..1] == "0";
  }

  lemma Value5625()
    ensures DigitsValue("56") as real + FractionValue("25") == 56.25
  {
    assert DigitsValue("56") == 56 by { assert "56"[..1] == "5" && "5"[..0] == []; }
    assert DigitsValue("25") == 25 by { assert "25"[..1] == "2" && "2"[..0] == []; }
    assert Pow10(2) == 100;
  }

  lemma Value120()
    ensures DigitsValue("120") == 120
  {
    assert "120"[..2] == "12" && "12"[..1] == "1" && "1"[..0] == [];
  }

  /** Worked example: "12/16 = 75.0" gives 75. */
  lemma ExampleWithFraction()
    ensures Extract("12/16 = 75.0") == Percentage(75.0)
  {
    Value75();
    ValueZeros();
    assert "12/16 = 75.0" == Canonical("12", "16", "75", "0", "", "", " ", " ") + "";
    ExtractCanonical("12/16 = 75.0", "12", "16", "75", "0", "", "", " ", " ", "");
  }

  /** Worked example: the fraction is optional, "12 / 16 = 75" gives 75. */
  lemma ExampleWithoutFraction()
    ensures Extract("12 / 16 = 75") == Percentage(75.0)
  {
    Value75();
    assert "12 / 16 = 75" == Canonical("12", "16", "75", "", " ", " ", " ", " ") + "";
    ExtractCanonical("12 / 16 = 75", "12", "16", "75", "", " ", " ", " ", " ", "");
  }

  /** Worked example: trailing zeros do not change the value. */
  lemma ExampleTrailingZeros()
    ensures Extract("45/60 = 75.00") == Percentage(75.0)
  {
    Value75();
    ValueZeros();
    assert "45/60 = 75.00" == Canonical("45", "60", "75", "00", "", "", " ", " ") + "";
    ExtractCanonical("45/60 = 75.00", "45", "60", "75", "00", "", "", " ", " ", "");
  }

  /** Worked example: a '.' with no digit after it is not part of the number. */
  lemma ExampleBareDot()
    ensures Extract("12/16 = 75.") == Percentage(75.0)
  {
    Value75();
    assert "12/16 = 75." == Canonical("12", "16", "75", "", "", "", " ", " ") + ".";
    ExtractCanonical("12/16 = 75.", "12", "16", "75", "", "", "", " ", " ", ".");
  }

  /** Worked example: the value is not rounded, and the numerator and the
      denominator are not checked against it. */
  lemma ExampleUnchecked()
    ensures Extract("9/10 = 56.25%") == Percentage(56.25)
  {
    Value5625();
    assert "9/10 = 56.25%" == Canonical("9", "10", "56", "25", "", "", " ", " ") + "%";
    ExtractCanonical("9/10 = 56.25%", "9", "10", "56", "25", "", "", " ", " ", "%");
  }

  /** Worked example: a value above 100 is returned as it stands. */
  lemma ExampleUnclamped()
    ensures Extract("1/1=120") == Percentage(120.0)
  {
    Value120();
    assert "1/1=120" == Canonical("1", "1", "120", "", "", "", "", "") + "";
    ExtractCanonical("1/1=120", "1", "1", "120", "", "", "", "", "", "");
  }

  /** A text without '=' never matches: the separator before the percentage
      is required. */
  lemma NoEqualsNotFound(s: string)
    requires '=' !in s
    ensures Extract(s) == NotFound
  {
    assert forall i: nat, o :: !IsOccurrence(s, i, o);
    ExtractFailsIffNoOccurrence(s);
  }

  /** Text without the pattern, such as what OCR makes of a blank image,
      gives the failure sentinel. */
  lemma ExtractNoPattern()
    ensures Extract("") == NotFound
    ensures Extract("75%") == NotFound
    ensures Extract("12/16") == NotFound
  {
    NoEqualsNotFound("");
    NoEqualsNotFound("75%");
    NoEqualsNotFound("12/16");
  }
}
