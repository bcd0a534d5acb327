/** How the regular expressions of `Match` and `UnMatch` relate to the
    strings `String` produces for the same template.

    `util.Rand` is not part of this model. What is relied on of it is
    `Fits`: a fixed-length generator returns exactly v characters of its
    class, a range generator between 1 and v of them. The numbers drawn by
    `util.FastRand`/`util.FastRandN` may be anything. */
module TextProofs {

  import opened Wrappers
  import opened Numerals
  import opened TextScan
  import opened TextRender
  import opened TextRegexp
  import opened Utf8

  predicate AllInClass(verb: char, t: string) {
    forall i :: 0 <= i < |t| ==> InClass(verb, t[i])
  }

  /** What a random text generator returns for a placeholder with this fill. */
  predicate Fits(f: Fill, t: string) {
    match f
    case RandomFixed(verb, n) => |t| == n && AllInClass(verb, t)
    case RandomRange(verb, n) => 1 <= |t| <= n && AllInClass(verb, t)
    case _ => true
  }

  /** The texts the generators returned for template s. */
  predicate Generated(s: string, texts: nat -> string) {
    var ms := Scan(s);
    forall x :: 0 <= x < |ms| ==> Fits(FillAt(s, ms[x]), texts(x))
  }

  /** Every placeholder of s is left as written by `String` (`%n`, `%0fs`). */
  predicate AllAsWritten(s: string) {
    var ms := Scan(s);
    forall x :: 0 <= x < |ms| ==> FillAt(s, ms[x]) == AsWritten
  }

  // ---------------------------------------------------------------------
  // One placeholder

  lemma DigitInClass(c: char)
    requires IsDigit(c)
    ensures InClass('d', c) && InClass('h', c)
  {
    assert Ranges('h')[1..][1..] == [('0', '9')];
  }

  lemma LowerHexInClass(c: char)
    requires IsDigit(c) || 'a' <= c <= 'f'
    ensures InClass('h', c)
  {
    if IsDigit(c) {
      DigitInClass(c);
    }
  }

  /** The replacement `String` writes for one placeholder is accepted by the
      atom `Match` writes for it; when it is not left as written, it is
      non-empty and starts with a character of the placeholder's class, and
      the atom `UnMatch` writes is the negated class. */
  lemma ReplacementMatched(s: string, ms: seq<Submatch>, x: nat, texts: nat -> string, numbers: nat -> nat)
    requires AllWellFormed(s, ms) && x < |ms|
    requires Fits(FillAt(s, ms[x]), texts(x))
    ensures var r := Replacement(s, ms, x, texts, numbers);
      && AtomAccepts(PatternAtom(s, ms[x], true), r)
      && (FillAt(s, ms[x]) == AsWritten ==> PatternAtom(s, ms[x], false) == Verbatim(r))
      && (FillAt(s, ms[x]) != AsWritten ==>
            && |r| >= 1 && InClass(Verb(s, ms[x]), r[0])
            && PatternAtom(s, ms[x], false) == Class(Verb(s, ms[x]), true, PatternAtom(s, ms[x], true).rep)
            && NonEmptyRep(PatternAtom(s, ms[x], true).rep))
  {
    var m := ms[x];
    assert WellFormed(s, m);
    var r := Replacement(s, ms, x, texts, numbers);
    var f := FillAt(s, m);
    AtomOfShape(Verb(s, m), IsFixed(s, m), CountValue(s, m), Raw(s, m), false);
    AtomOfShape(Verb(s, m), IsFixed(s, m), CountValue(s, m), Raw(s, m), true);
    if Verb(s, m) == 'd' {
      forall i | 0 <= i < |r| ensures InClass('d', r[i]) {
        DigitInClass(r[i]);
      }
    } else if Verb(s, m) == 'h' {
      forall i | 0 <= i < |r| ensures InClass('h', r[i]) {
        LowerHexInClass(r[i]);
      }
    }
  }

  // ---------------------------------------------------------------------
  // Whole templates, for any ordered list of matches

  /** The texts fit the fills of the matches ms. */
  predicate FitsAll(s: string, ms: seq<Submatch>, texts: nat -> string)
    requires AllWellFormed(s, ms)
  {
    forall x :: 0 <= x < |ms| ==> Fits(FillAt(s, ms[x]), texts(x))
  }

  predicate AsWrittenAll(s: string, ms: seq<Submatch>)
    requires AllWellFormed(s, ms)
  {
    forall x :: 0 <= x < |ms| ==> FillAt(s, ms[x]) == AsWritten
  }

  /** The output pieces for matches ms, as `Pieces` has them for `Scan(s)`. */
  function PiecesOf(s: string, ms: seq<Submatch>, texts: nat -> string, numbers: nat -> nat): (ws: seq<string>)
    requires Spans(s, ms, 0)
    ensures |ws| == 2 * |ms| + 1
  {
    Interleave(s, ms, |ms|, Replacements(s, ms, texts, numbers)) + [Tail(s, ms)]
  }

  /** The pattern of a template: a quoted gap and the placeholder's atom
      for each match, then the quoted tail. */
  lemma PatternAtomsAt(s: string, ms: seq<Submatch>, o: bool, x: nat)
    requires Spans(s, ms, 0) && x <= |ms|
    ensures var atoms := PatternAtoms(s, ms, o);
      && |atoms| == 2 * |ms| + 1
      && atoms[2 * |ms|] == Literal(Tail(s, ms))
      && (x < |ms| ==> atoms[2 * x] == Literal(Gap(s, ms, x)))
      && (x < |ms| ==> WellFormed(s, ms[x]) && atoms[2 * x + 1] == PatternAtom(s, ms[x], o))
  {
    if x < |ms| {
      PatternPiecesAt(s, ms, |ms|, o, x);
    }
  }

  /** The output of a template: the gap and the replacement for each
      match, then the tail. */
  lemma PiecesOfAt(s: string, ms: seq<Submatch>, texts: nat -> string, numbers: nat -> nat, x: nat)
    requires Spans(s, ms, 0) && x <= |ms|
    ensures var ws := PiecesOf(s, ms, texts, numbers);
      && ws[2 * |ms|] == Tail(s, ms)
      && (x < |ms| ==> ws[2 * x] == Gap(s, ms, x))
      && (x < |ms| ==> ws[2 * x + 1] == Replacement(s, ms, x, texts, numbers))
  {
    if x < |ms| {
      InterleaveAt(s, ms, |ms|, Replacements(s, ms, texts, numbers), x);
    }
  }

  /** Atom i of the pattern accepts piece i of the output, for `Match`, and
      for `UnMatch` when every placeholder is left as written. */
  lemma PiecesMatchedOf(s: string, ms: seq<Submatch>, texts: nat -> string, numbers: nat -> nat, o: bool)
    requires Spans(s, ms, 0) && FitsAll(s, ms, texts)
    requires o || AsWrittenAll(s, ms)
    ensures var atoms, ws := PatternAtoms(s, ms, o), PiecesOf(s, ms, texts, numbers);
      && |atoms| == |ws|
      && forall i :: 0 <= i < |atoms| ==> AtomAccepts(atoms[i], ws[i])
  {
    var atoms, ws := PatternAtoms(s, ms, o), PiecesOf(s, ms, texts, numbers);
    PatternAtomsAt(s, ms, o, |ms|);
    PiecesOfAt(s, ms, texts, numbers, |ms|);
    forall x | 0 <= x < |ms| ensures PairAccepted(atoms, ws, x) {
      PairMatched(s, ms, texts, numbers, o, x);
    }
    PairsCover(atoms, ws, |ms|);
  }

  /** Gap x and placeholder x are both accepted by their atoms. */
  predicate PairAccepted(atoms: seq<Atom>, ws: seq<string>, x: nat) {
    2 * x + 1 < |atoms| && 2 * x + 1 < |ws|
    && AtomAccepts(atoms[2 * x], ws[2 * x]) && AtomAccepts(atoms[2 * x + 1], ws[2 * x + 1])
  }

  lemma PairsCover(atoms: seq<Atom>, ws: seq<string>, n: nat)
    requires |atoms| == 2 * n + 1 && |ws| == 2 * n + 1
    requires AtomAccepts(atoms[2 * n], ws[2 * n])
    requires forall x :: 0 <= x < n ==> PairAccepted(atoms, ws, x)
    ensures forall i :: 0 <= i < |atoms| ==> AtomAccepts(atoms[i], ws[i])
  {
    forall i | 0 <= i < |atoms| ensures AtomAccepts(atoms[i], ws[i]) {
      var x := i / 2;
      if x < n {
        assert PairAccepted(atoms, ws, x);
        assert i == 2 * x || i == 2 * x + 1;
      }
    }
  }

  /** The atoms for gap x and placeholder x accept the gap and the replacement. */
  lemma PairMatched(s: string, ms: seq<Submatch>, texts: nat -> string, numbers: nat -> nat, o: bool, x: nat)
    requires Spans(s, ms, 0) && FitsAll(s, ms, texts)
    requires o || AsWrittenAll(s, ms)
    requires x < |ms|
    ensures var atoms, ws := PatternAtoms(s, ms, o), PiecesOf(s, ms, texts, numbers);
      AtomAccepts(atoms[2 * x], ws[2 * x]) && AtomAccepts(atoms[2 * x + 1], ws[2 * x + 1])
  {
    PatternAtomsAt(s, ms, o, x);
    PiecesOfAt(s, ms, texts, numbers, x);
    ReplacementMatched(s, ms, x, texts, numbers);
  }

  /** Every pattern atom of a template whose placeholders are all left as
      written is exact, so no repetition count is written. */
  lemma AsWrittenAtomsExact(s: string, ms: seq<Submatch>)
    requires Spans(s, ms, 0) && AsWrittenAll(s, ms)
    ensures var atoms := PatternAtoms(s, ms, false);
      forall i :: 0 <= i < |atoms| ==> IsExact(atoms[i])
  {
    var atoms := PatternAtoms(s, ms, false);
    PatternAtomsAt(s, ms, false, |ms|);
    forall x | 0 <= x < |ms| ensures PairExactAtoms(atoms, x) {
      PairAsWrittenExact(s, ms, x);
    }
    forall i | 0 <= i < |atoms| ensures IsExact(atoms[i]) {
      var x := i / 2;
      if x < |ms| {
        assert PairExactAtoms(atoms, x);
        assert i == 2 * x || i == 2 * x + 1;
      }
    }
  }

  /** Gap x and placeholder x, left as written, give exact atoms. */
  lemma PairAsWrittenExact(s: string, ms: seq<Submatch>, x: nat)
    requires Spans(s, ms, 0) && AsWrittenAll(s, ms) && x < |ms|
    ensures PairExactAtoms(PatternAtoms(s, ms, false), x)
  {
    PatternAtomsAt(s, ms, false, |ms|);
    PatternAtomsAt(s, ms, false, x);
    var m := ms[x];
    AsWrittenIff(s, m);
    AtomOfShape(Verb(s, m), IsFixed(s, m), CountValue(s, m), Raw(s, m), true);
  }

  /** The atoms of gap x and placeholder x are both exact. */
  predicate PairExactAtoms(atoms: seq<Atom>, x: nat) {
    2 * x + 1 < |atoms| && IsExact(atoms[2 * x]) && IsExact(atoms[2 * x + 1])
  }

  /** No letter placeholder asks for more than `RepeatLimit` characters. */
  predicate CountsWithinLimit(s: string, ms: seq<Submatch>)
    requires AllWellFormed(s, ms)
  {
    forall x :: 0 <= x < |ms| && IsLetterVerb(Verb(s, ms[x])) ==> CountValue(s, ms[x]) <= RepeatLimit
  }

  /** The pattern atoms stay within the repetition limit exactly when no
      letter placeholder asks for more than `RepeatLimit` characters. */
  lemma WithinLimitIff(s: string, ms: seq<Submatch>, o: bool)
    requires Spans(s, ms, 0)
    ensures WithinLimit(PatternAtoms(s, ms, o)) <==> CountsWithinLimit(s, ms)
  {
    if CountsWithinLimit(s, ms) {
      LimitsKept(s, ms, o);
    } else {
      var x :| 0 <= x < |ms| && IsLetterVerb(Verb(s, ms[x])) && CountValue(s, ms[x]) > RepeatLimit;
      PatternAtomsAt(s, ms, o, x);
      var a := PatternAtoms(s, ms, o)[2 * x + 1];
      assert a == PatternAtom(s, ms[x], o);
      LetterAtomCount(Verb(s, ms[x]), IsFixed(s, ms[x]), CountValue(s, ms[x]), Raw(s, ms[x]), !o);
    }
  }

  /** A letter placeholder with a positive count repeats its class exactly
      that many times, or up to that many times. */
  lemma LetterAtomCount(verb: char, fixed: bool, v: int, raw: string, negated: bool)
    requires IsLetterVerb(verb) && v > 0
    ensures var a := AtomOf(verb, fixed, v, raw, negated);
      a.Class? && !a.rep.OneOrMore? && a.rep.n == v
  {
  }

  lemma LimitsKept(s: string, ms: seq<Submatch>, o: bool)
    requires Spans(s, ms, 0) && CountsWithinLimit(s, ms)
    ensures WithinLimit(PatternAtoms(s, ms, o))
  {
    var atoms := PatternAtoms(s, ms, o);
    PatternAtomsAt(s, ms, o, |ms|);
    forall x | 0 <= x < |ms| ensures PairWithinLimit(atoms, x) {
      PairKept(s, ms, o, x);
    }
    PairsWithinLimit(atoms, |ms|);
  }

  lemma PairsWithinLimit(atoms: seq<Atom>, n: nat)
    requires |atoms| == 2 * n + 1 && AtomWithinLimit(atoms[2 * n])
    requires forall x :: 0 <= x < n ==> PairWithinLimit(atoms, x)
    ensures WithinLimit(atoms)
  {
    forall i | 0 <= i < |atoms| ensures AtomWithinLimit(atoms[i]) {
      var x := i / 2;
      if x < n {
        assert PairWithinLimit(atoms, x);
        assert i == 2 * x || i == 2 * x + 1;
      }
    }
  }

  lemma PairKept(s: string, ms: seq<Submatch>, o: bool, x: nat)
    requires Spans(s, ms, 0) && CountsWithinLimit(s, ms) && x < |ms|
    ensures PairWithinLimit(PatternAtoms(s, ms, o), x)
  {
    PatternAtomsAt(s, ms, o, x);
    var m := ms[x];
    AtomKept(Verb(s, m), IsFixed(s, m), CountValue(s, m), Raw(s, m), !o);
  }

  lemma AtomKept(verb: char, fixed: bool, v: int, raw: string, negated: bool)
    requires IsLetterVerb(verb) ==> v <= RepeatLimit
    ensures AtomWithinLimit(AtomOf(verb, fixed, v, raw, negated))
  {
  }

  /** The atoms of gap x and placeholder x both keep the limit. */
  predicate PairWithinLimit(atoms: seq<Atom>, x: nat) {
    2 * x + 1 < |atoms| && AtomWithinLimit(atoms[2 * x]) && AtomWithinLimit(atoms[2 * x + 1])
  }

  /** A placeholder left as written gives two exact atoms, whose texts are
      the gap and the placeholder that `String` writes. */
  lemma PairExact(s: string, ms: seq<Submatch>, texts: nat -> string, numbers: nat -> nat, x: nat)
    requires Spans(s, ms, 0) && x < |ms|
    requires WellFormed(s, ms[x]) && FillAt(s, ms[x]) == AsWritten
    ensures var atoms, ws := PatternAtoms(s, ms, false), PiecesOf(s, ms, texts, numbers);
      && IsExact(atoms[2 * x]) && atoms[2 * x].text == ws[2 * x]
      && IsExact(atoms[2 * x + 1]) && atoms[2 * x + 1].text == ws[2 * x + 1]
  {
    PatternAtomsAt(s, ms, false, x);
    PiecesOfAt(s, ms, texts, numbers, x);
    AsWrittenAtom(s, ms[x]);
    AsWrittenReplacement(s, ms, x, texts, numbers);
  }

  lemma AsWrittenReplacement(s: string, ms: seq<Submatch>, x: nat, texts: nat -> string, numbers: nat -> nat)
    requires AllWellFormed(s, ms) && x < |ms| && FillAt(s, ms[x]) == AsWritten
    ensures Replacement(s, ms, x, texts, numbers) == Raw(s, ms[x])
  {
  }

  /** A placeholder left as written is written as it is into the pattern of
      `UnMatch`. */
  lemma AsWrittenAtom(s: string, m: Submatch)
    requires WellFormed(s, m) && FillAt(s, m) == AsWritten
    ensures PatternAtom(s, m, false) == Verbatim(Raw(s, m))
  {
    AsWrittenIff(s, m);
    AtomOfShape(Verb(s, m), IsFixed(s, m), CountValue(s, m), Raw(s, m), true);
  }

  /** A placeholder that is not left as written gives a negated class in
      the pattern of `UnMatch`, and its replacement starts with a character
      of that class. */
  lemma FilledRejected(s: string, ms: seq<Submatch>, texts: nat -> string, numbers: nat -> nat, x: nat)
    requires Spans(s, ms, 0) && FitsAll(s, ms, texts) && x < |ms|
    requires WellFormed(s, ms[x]) && FillAt(s, ms[x]) != AsWritten
    ensures var a, w := PatternAtoms(s, ms, false)[2 * x + 1], PiecesOf(s, ms, texts, numbers)[2 * x + 1];
      && a.Class? && a.negated && NonEmptyRep(a.rep)
      && |w| >= 1 && InClass(a.verb, w[0])
  {
    PatternAtomsAt(s, ms, false, x);
    PiecesOfAt(s, ms, texts, numbers, x);
    ReplacementMatched(s, ms, x, texts, numbers);
  }

  /** The pattern of `UnMatch` rejects the output when placeholder x0 is the
      first that is not left as written. */
  lemma RejectsFirstFilled(s: string, ms: seq<Submatch>, texts: nat -> string, numbers: nat -> nat, x0: nat)
    requires Spans(s, ms, 0) && FitsAll(s, ms, texts)
    requires x0 < |ms| && FillAt(s, ms[x0]) != AsWritten
    requires forall y :: 0 <= y < x0 ==> FillAt(s, ms[y]) == AsWritten
    ensures !Accepts(PatternAtoms(s, ms, false), Concat(PiecesOf(s, ms, texts, numbers)))
  {
    var atoms, ws := PatternAtoms(s, ms, false), PiecesOf(s, ms, texts, numbers);
    var j := 2 * x0 + 1;
    PatternAtomsAt(s, ms, false, x0);
    PiecesOfAt(s, ms, texts, numbers, x0);
    forall i | 0 <= i < j ensures IsExact(atoms[i]) && atoms[i].text == ws[i] {
      var x := i / 2;
      if x < x0 {
        PairExact(s, ms, texts, numbers, x);
        assert i == 2 * x || i == 2 * x + 1;
      } else {
        assert i == 2 * x0;
      }
    }
    FilledRejected(s, ms, texts, numbers, x0);
    RejectsAtNegatedClass(atoms, ws, j);
  }

  // ---------------------------------------------------------------------
  // The templates' own match lists

  /** The facts about `Scan(s)` the lemmas above need, and the pieces of the
      output in terms of it. */
  lemma ScanFacts(s: string, texts: nat -> string, numbers: nat -> nat)
    ensures Spans(s, Scan(s), 0)
    ensures Pieces(s, texts, numbers) == PiecesOf(s, Scan(s), texts, numbers)
    ensures Generated(s, texts) <==> FitsAll(s, Scan(s), texts)
    ensures AllAsWritten(s) <==> AsWrittenAll(s, Scan(s))
  {
  }

  /** `Match()` accepts every string `String()` can produce, whenever its
      pattern compiles (see `MatchCompiles`). */
  lemma MatchAcceptsEveryRendering(s: string, texts: nat -> string, numbers: nat -> nat)
    requires |s| > 0 && Generated(s, texts)
    requires MatchPattern(s, true).Compiled?
    ensures Matches(MatchPattern(s, true), Rendered(s, texts, numbers))
  {
    var ms := Scan(s);
    ScanFacts(s, texts, numbers);
    if ms == [] {
      NoPlaceholderUnchanged(s, texts, numbers);
      LiteralAcceptsExactly(s);
    } else {
      PiecesMatchedOf(s, ms, texts, numbers, true);
      AcceptsPieces(PatternAtoms(s, ms, true), PiecesOf(s, ms, texts, numbers));
    }
  }

  /** The pattern of a template with placeholders compiles exactly when no
      letter placeholder asks for more than `RepeatLimit` characters and the
      template is well-formed UTF-8. */
  lemma MatchCompiles(s: string, o: bool)
    requires |s| > 0 && Scan(s) != []
    ensures var ms := Scan(s);
      MatchPattern(s, o).Compiled? <==> CountsWithinLimit(s, ms) && Valid(s)
  {
    WithinLimitIff(s, Scan(s), o);
    PatternSourceValid(s, o);
  }

  // ---------------------------------------------------------------------
  // `UnMatch`, as written and corrected

  /** As written, `UnMatch()` of a template whose placeholders are all left
      as written (`%n`) is a pattern that accepts the template itself, which
      is exactly what `String()` returns for it. (A template that is not
      well-formed UTF-8 gets the false matcher instead, which accepts
      nothing.) */
  lemma UnMatchAcceptsAsWrittenRendering(s: string, texts: nat -> string, numbers: nat -> nat)
    requires |s| > 0 && Scan(s) != [] && AllAsWritten(s) && Valid(s)
    ensures Rendered(s, texts, numbers) == s
    ensures Matches(MatchPattern(s, false), Rendered(s, texts, numbers))
  {
    var ms := Scan(s);
    ScanFacts(s, texts, numbers);
    AllAsWrittenRendersTemplate(s, texts, numbers);
    AsWrittenAccepted(s, ms, texts, numbers);
    PatternSourceValid(s, false);
  }

  /** The atoms of `UnMatch` for matches that are all left as written
      compile, and accept the output pieces put together. */
  lemma AsWrittenAccepted(s: string, ms: seq<Submatch>, texts: nat -> string, numbers: nat -> nat)
    requires Spans(s, ms, 0) && AsWrittenAll(s, ms)
    ensures WithinLimit(PatternAtoms(s, ms, false))
    ensures Accepts(PatternAtoms(s, ms, false), Concat(PiecesOf(s, ms, texts, numbers)))
  {
    var atoms := PatternAtoms(s, ms, false);
    AsWrittenAtomsExact(s, ms);
    assert WithinLimit(atoms) by {
      forall i | 0 <= i < |atoms| ensures AtomWithinLimit(atoms[i]) {
        assert IsExact(atoms[i]);
      }
    }
    AsWrittenFits(s, ms, texts);
    PiecesMatchedOf(s, ms, texts, numbers, false);
    AcceptsPieces(atoms, PiecesOf(s, ms, texts, numbers));
  }

  /** A placeholder left as written draws no text, so any texts fit. */
  lemma AsWrittenFits(s: string, ms: seq<Submatch>, texts: nat -> string)
    requires AllWellFormed(s, ms) && AsWrittenAll(s, ms)
    ensures FitsAll(s, ms, texts)
  {
    forall x | 0 <= x < |ms| ensures Fits(FillAt(s, ms[x]), texts(x)) {
      assert FillAt(s, ms[x]) == AsWritten;
    }
  }

  lemma PercentNValid()
    ensures Valid("%n")
  {
    assert "%n"[1..] == "n" && "n"[1..] == [];
  }

  /** `%n` is such a template. */
  lemma PercentN()
    ensures Scan("%n") == [Submatch(0, 2, -1, -1)]
    ensures AllAsWritten("%n")
    ensures Valid("%n")
  {
    var s := "%n";
    PercentNValid();
    assert DigitsEnd(s, 1) == 1;
    assert PlaceholderAt(s, 0) == Some(Submatch(0, 2, -1, -1));
    assert ScanFrom(s, 2) == [];
    var m := Submatch(0, 2, -1, -1);
    assert WellFormed(s, m) && Verb(s, m) == 'n' && CountValue(s, m) == -1;
  }

  /** `UnMatch`, corrected: when every placeholder is left as written the
      only possible output is the template itself, so the inverse matcher of
      the template is returned, as for a template without placeholders. */
  function UnMatchCorrected(s: string): Regexp {
    if |s| > 0 && AllAsWritten(s) then InverseRegexp(s) else MatchPattern(s, false)
  }

  /** The corrected `UnMatch()` accepts no string `String()` can produce. */
  lemma UnMatchCorrectedRejectsEveryRendering(s: string, texts: nat -> string, numbers: nat -> nat)
    requires Generated(s, texts)
    ensures !Matches(UnMatchCorrected(s), Rendered(s, texts, numbers))
  {
    var ms := Scan(s);
    ScanFacts(s, texts, numbers);
    if |s| == 0 {
    } else if AllAsWritten(s) {
      AllAsWrittenRendersTemplate(s, texts, numbers);
    } else if MatchPattern(s, false).Compiled? {
      var x0 := FirstFilled(s, ms);
      RejectsFirstFilled(s, ms, texts, numbers, x0);
    }
  }
  // ---------------------------------------------------------------------
  // Finding: `Match()` of the empty template

  /** As written, `Match()` of the empty template is the false matcher, which
      rejects the empty string `String()` returns for it. */
  lemma MatchRejectsEmptyRendering(texts: nat -> string, numbers: nat -> nat)
    ensures Generated("", texts)
    ensures Rendered("", texts, numbers) == ""
    ensures !Matches(MatchPattern("", true), Rendered("", texts, numbers))
  {
    assert Scan("") == [];
    EmptyUnchanged("", texts, numbers);
  }

  /** `Match()` without the `len(s) == 0` guard: the empty template then takes
      the path of a template without placeholders and compiles to `^()$`. */
  function MatchCorrected(s: string): Regexp {
    if |s| == 0 then Compile("^(" + QuoteMeta(s) + ")$", [Literal(s)]) else MatchPattern(s, true)
  }

  /** The corrected `Match()` compiles for the empty template and accepts
      every string `String()` can produce whenever its pattern compiles, the
      empty template included. */
  lemma MatchCorrectedAcceptsEveryRendering(s: string, texts: nat -> string, numbers: nat -> nat)
    requires Generated(s, texts)
    requires |s| > 0 ==> MatchCorrected(s).Compiled?
    ensures MatchCorrected(s).Compiled?
    ensures Matches(MatchCorrected(s), Rendered(s, texts, numbers))
  {
    if |s| == 0 {
      LiteralSourceValid(s);
      assert Valid("");
      LiteralAcceptsExactly(s);
      EmptyUnchanged(s, texts, numbers);
    } else {
      MatchAcceptsEveryRendering(s, texts, numbers);
    }
  }


  /** The first placeholder that is not left as written. */
  lemma FirstFilled(s: string, ms: seq<Submatch>) returns (x0: nat)
    requires AllWellFormed(s, ms) && !AsWrittenAll(s, ms)
    ensures x0 < |ms| && FillAt(s, ms[x0]) != AsWritten
    ensures forall y :: 0 <= y < x0 ==> FillAt(s, ms[y]) == AsWritten
  {
    var fs := seq(|ms|, x requires 0 <= x < |ms| && WellFormed(s, ms[x]) => FillAt(s, ms[x]));
    var x1 :| 0 <= x1 < |ms| && FillAt(s, ms[x1]) != AsWritten;
    assert fs[x1] != AsWritten;
    x0 := FirstNotAsWritten(fs, x1);
    forall y | 0 <= y < x0 ensures FillAt(s, ms[y]) == AsWritten {
      assert fs[y] == FillAt(s, ms[y]);
    }
  }

  /** The first fill that is not `AsWritten`, at or before x1. */
  lemma FirstNotAsWritten(fs: seq<Fill>, x1: nat) returns (x0: nat)
    requires x1 < |fs| && fs[x1] != AsWritten
    ensures x0 <= x1 && fs[x0] != AsWritten
    ensures forall y :: 0 <= y < x0 ==> fs[y] == AsWritten
  {
    x0 := 0;
    while fs[x0] == AsWritten
      invariant x0 <= x1
      invariant forall y :: 0 <= y < x0 ==> fs[y] == AsWritten
      decreases x1 - x0
    {
      x0 := x0 + 1;
    }
  }
}
