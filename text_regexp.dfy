/** `Matcher.MatchEx`, `Match` and `UnMatch`: build a regular expression
    that recognises what `String` may produce (or, inverted, what it may not).

    The pattern text is built exactly as the source builds it. Its meaning is
    carried alongside as a list of atoms (a quoted literal, a character class
    with a repetition, or a placeholder copied as written) whose concatenation
    the anchored pattern `^(...)$` matches; `Accepts` gives that meaning. */
module TextRegexp {

  import opened Numerals
  import opened TextScan
  import opened Utf8

  /** The largest repetition count `regexp.Compile` accepts in `{n}` and `{1,n}`. */
  const RepeatLimit: nat := 1000

  datatype Rep = OneOrMore | Exactly(n: nat) | UpTo(n: nat)

  datatype Atom =
    | Literal(text: string)                         // quoted text between placeholders
    | Class(verb: char, negated: bool, rep: Rep)    // `([0-9]+)`, `([^a-z]{1,5})`, ...
    | Verbatim(text: string)                        // a placeholder written as it is

  // ---------------------------------------------------------------------
  // Character classes

  /** The ranges of the class each verb uses: `d` and `n` digits, `h` hex
      digits, `c` letters, `u` upper case, `l` lower case, `s` alphanumerics. */
  function Ranges(verb: char): seq<(char, char)> {
    if verb == 'd' || verb == 'n' then [('0', '9')]
    else if verb == 'h' then [('a', 'f'), ('A', 'F'), ('0', '9')]
    else if verb == 'c' then [('a', 'z'), ('A', 'Z')]
    else if verb == 'u' then [('A', 'Z')]
    else if verb == 'l' then [('a', 'z')]
    else [('a', 'z'), ('A', 'Z'), ('0', '9')]
  }

  /** How the ranges are written inside `[...]`, e.g. `a-fA-F0-9`. */
  function RangesText(rs: seq<(char, char)>): string {
    if rs == [] then "" else [rs[0].0, '-', rs[0].1] + RangesText(rs[1..])
  }

  predicate InRanges(rs: seq<(char, char)>, c: char) {
    |rs| > 0 && (rs[0].0 <= c <= rs[0].1 || InRanges(rs[1..], c))
  }

  predicate InClass(verb: char, c: char) {
    InRanges(Ranges(verb), c)
  }

  // ---------------------------------------------------------------------
  // Quoting literal text

  /** The characters `regexp.QuoteMeta` escapes. */
  predicate IsMeta(c: char) {
    c in "\\.+*?()|[]{}^$"
  }

  /** `regexp.QuoteMeta`: a backslash before every metacharacter. */
  function QuoteMeta(t: string): string {
    if t == [] then [] else (if IsMeta(t[0]) then ['\\', t[0]] else [t[0]]) + QuoteMeta(t[1..])
  }

  /** `strings.ReplaceAll(_, "/", "\\/")`. */
  function EscapeSlash(t: string): string {
    if t == [] then [] else (if t[0] == '/' then "\\/" else [t[0]]) + EscapeSlash(t[1..])
  }

  /** Reading escaped text back: a backslash stands for the character after it. */
  function Unquote(t: string): string
    decreases |t|
  {
    if t == [] then []
    else if t[0] == '\\' && |t| >= 2 then [t[1]] + Unquote(t[2..])
    else [t[0]] + Unquote(t[1..])
  }

  lemma {:induction false} EscapeSlashAppend(a: string, b: string)
    ensures EscapeSlash(a + b) == EscapeSlash(a) + EscapeSlash(b)
  {
    if a != [] {
      assert (a + b)[1..] == a[1..] + b;
      EscapeSlashAppend(a[1..], b);
    } else {
      assert a + b == b;
    }
  }

  lemma {:induction false} UnquoteAppend(e: string, t: string)
    requires e == [] || (|e| == 1 && e[0] != '\\') || (|e| == 2 && e[0] == '\\')
    ensures Unquote(e + t) == Unquote(e) + Unquote(t)
  {
    if |e| == 1 {
      assert (e + t)[1..] == t;
      assert Unquote(e) == [e[0]] + Unquote([]);
    } else if |e| == 2 {
      assert (e + t)[2..] == t;
      assert Unquote(e) == [e[1]] + Unquote([]);
    } else {
      assert e + t == t;
    }
  }

  /** Quoting loses nothing: unquoting `QuoteMeta(t)` gives t back. */
  lemma {:induction false} QuoteMetaRoundTrip(t: string)
    ensures Unquote(QuoteMeta(t)) == t
  {
    if t != [] {
      var e := if IsMeta(t[0]) then ['\\', t[0]] else [t[0]];
      assert t[0] != '\\' || IsMeta(t[0]);
      UnquoteAppend(e, QuoteMeta(t[1..]));
      QuoteMetaRoundTrip(t[1..]);
      assert t == [t[0]] + t[1..];
    }
  }

  /** Nor does escaping the slashes afterwards: the literal text between
      placeholders is recovered from the pattern exactly. */
  lemma {:induction false} QuoteLiteralRoundTrip(t: string)
    ensures Unquote(EscapeSlash(QuoteMeta(t))) == t
  {
    if t != [] {
      var e := if IsMeta(t[0]) then ['\\', t[0]] else [t[0]];
      assert QuoteMeta(t) == e + QuoteMeta(t[1..]);
      EscapeSlashAppend(e, QuoteMeta(t[1..]));
      var f := EscapeSlash(e);
      EscapedChar(t[0]);
      UnquoteAppend(f, EscapeSlash(QuoteMeta(t[1..])));
      QuoteLiteralRoundTrip(t[1..]);
      assert t == [t[0]] + t[1..];
    }
  }

  /** One quoted and escaped character is one escape or one plain character,
      and reads back as itself. */
  lemma EscapedChar(c: char)
    ensures var f := EscapeSlash(if IsMeta(c) then ['\\', c] else [c]);
      && ((|f| == 1 && f[0] != '\\') || (|f| == 2 && f[0] == '\\'))
      && Unquote(f) == [c]
  {
    var e := if IsMeta(c) then ['\\', c] else [c];
    if IsMeta(c) {
      assert e[1..] == [c];
      assert EscapeSlash([c]) == [c] + EscapeSlash([]);
      assert EscapeSlash(e) == ['\\', c];
      assert Unquote(['\\', c]) == [c] + Unquote([]);
    } else {
      assert EscapeSlash(e) == (if c == '/' then "\\/" else [c]) + EscapeSlash([]);
      if c == '/' {
        assert Unquote("\\/") == ['/'] + Unquote([]);
      } else {
        assert Unquote([c]) == [c] + Unquote([]);
      }
    }
  }

  // ---------------------------------------------------------------------
  // Pattern text

  function RepText(r: Rep): string {
    match r
    case OneOrMore => "]+)"
    case Exactly(n) => "]{" + Decimal(n) + "})"
    case UpTo(n) => "]{1," + Decimal(n) + "})"
  }

  /** The text each atom contributes to the pattern. */
  function Emit(a: Atom): string {
    match a
    case Literal(t) => EscapeSlash(QuoteMeta(t))
    case Class(verb, negated, r) => "([" + (if negated then "^" else "") + RangesText(Ranges(verb)) + RepText(r)
    case Verbatim(t) => t
  }

  function EmitAll(atoms: seq<Atom>): string {
    if atoms == [] then "" else Emit(atoms[0]) + EmitAll(atoms[1..])
  }

  lemma {:induction false} EmitAllAppend(a: seq<Atom>, b: seq<Atom>)
    ensures EmitAll(a + b) == EmitAll(a) + EmitAll(b)
  {
    if a == [] {
      assert a + b == b;
    } else {
      assert (a + b)[1..] == a[1..] + b;
      EmitAllAppend(a[1..], b);
    }
  }

  // ---------------------------------------------------------------------
  // Meaning of a pattern

  predicate RepAllows(r: Rep, len: nat) {
    match r
    case OneOrMore => len >= 1
    case Exactly(n) => len == n
    case UpTo(n) => 1 <= len <= n
  }

  predicate AtomAccepts(a: Atom, w: string) {
    match a
    case Literal(t) => w == t
    case Verbatim(t) => w == t
    case Class(verb, negated, r) => RepAllows(r, |w|) && forall i :: 0 <= i < |w| ==> InClass(verb, w[i]) != negated
  }

  /** The anchored pattern `^(` atoms `)$` matches w: w splits into one piece per atom. */
  predicate Accepts(atoms: seq<Atom>, w: string)
    decreases |atoms|
  {
    if atoms == [] then w == []
    else exists k :: 0 <= k <= |w| && AtomAccepts(atoms[0], w[..k]) && Accepts(atoms[1..], w[k..])
  }

  /** The three kinds of `Regexp` the matcher hands out. */
  datatype Regexp =
    | FalseRegexp                                   // falseRegexp: matches nothing
    | InverseRegexp(text: string)                   // inverseRegexp: anything but text
    | Compiled(source: string, atoms: seq<Atom>)    // *regexp.Regexp

  /** `MatchString` (and `Match`, bytes and characters being the same here). */
  predicate Matches(r: Regexp, w: string) {
    match r
    case FalseRegexp => false
    case InverseRegexp(t) => w != t
    case Compiled(_, atoms) => Accepts(atoms, w)
  }

  /** `String()`: `falseRegexp` prints "false", `inverseRegexp` its text, and a
      compiled expression its pattern. */
  function Source(r: Regexp): string {
    match r
    case FalseRegexp => "false"
    case InverseRegexp(t) => t
    case Compiled(source, _) => source
  }

  /** A counted repetition asks for at most `RepeatLimit` characters. */
  predicate AtomWithinLimit(a: Atom) {
    a.Class? && !a.rep.OneOrMore? ==> a.rep.n <= RepeatLimit
  }

  predicate WithinLimit(atoms: seq<Atom>) {
    forall i :: 0 <= i < |atoms| ==> AtomWithinLimit(atoms[i])
  }

  /** `regexp.Compile`, which the source turns into the false matcher on error:
      it fails on a repetition count above the limit and on a pattern that is
      not well-formed UTF-8. */
  function Compile(source: string, atoms: seq<Atom>): Regexp {
    if WithinLimit(atoms) && Valid(source) then Compiled(source, atoms) else FalseRegexp
  }

  // ---------------------------------------------------------------------
  // The pattern of a template

  /** The case table of `MatchEx` for verb, `f` flag, count v and the
      placeholder's text; `negated` is the `^` written into each class when
      the matcher is inverted. The second group of letter cases in the source
      tests the same conditions as the first and is never reached. */
  function AtomOf(verb: char, fixed: bool, v: int, raw: string, negated: bool): Atom {
    if verb == 'd' || verb == 'h' then Class(verb, negated, OneOrMore)
    else if IsLetterVerb(verb) && fixed && v > 0 then Class(verb, negated, Exactly(v))
    else if IsLetterVerb(verb) && v > 0 then Class(verb, negated, UpTo(v))
    else Verbatim(raw)
  }

  function PatternAtom(s: string, m: Submatch, o: bool): Atom
    requires WellFormed(s, m)
  {
    AtomOf(Verb(s, m), IsFixed(s, m), CountValue(s, m), Raw(s, m), !o)
  }

  /** The quoted gaps before the matches, in order. */
  function GapAtoms(s: string, ms: seq<Submatch>): (ls: seq<Atom>)
    requires Spans(s, ms, 0)
    ensures |ls| == |ms|
    ensures forall x :: 0 <= x < |ms| ==> ls[x] == Literal(Gap(s, ms, x))
  {
    seq(|ms|, x requires 0 <= x < |ms| => Literal(Gap(s, ms, x)))
  }

  /** The atoms of the matches, in order. */
  function PlaceholderAtoms(s: string, ms: seq<Submatch>, o: bool): (ps: seq<Atom>)
    requires AllWellFormed(s, ms)
    ensures |ps| == |ms|
    ensures forall x :: 0 <= x < |ms| ==> ps[x] == PatternAtom(s, ms[x], o)
  {
    seq(|ms|, x requires 0 <= x < |ms| => PatternAtom(s, ms[x], o))
  }

  /** Literal gap, placeholder atom, ... for the first k matches. */
  function PatternPieces(s: string, ms: seq<Submatch>, k: nat, o: bool): (atoms: seq<Atom>)
    requires Spans(s, ms, 0) && k <= |ms|
    ensures |atoms| == 2 * k
  {
    Weave(GapAtoms(s, ms), PlaceholderAtoms(s, ms, o), k)
  }

  /** Atom 2x is the quoted gap before match x and atom 2x+1 the match's own atom. */
  lemma PatternPiecesAt(s: string, ms: seq<Submatch>, k: nat, o: bool, x: nat)
    requires Spans(s, ms, 0) && x < k <= |ms|
    ensures WellFormed(s, ms[x])
    ensures PatternPieces(s, ms, k, o)[2 * x] == Literal(Gap(s, ms, x))
    ensures PatternPieces(s, ms, k, o)[2 * x + 1] == PatternAtom(s, ms[x], o)
  {
    WeaveAt(GapAtoms(s, ms), PlaceholderAtoms(s, ms, o), k, x);
  }

  /** All atoms of the pattern of a template with matches ms. */
  function PatternAtoms(s: string, ms: seq<Submatch>, o: bool): seq<Atom>
    requires Spans(s, ms, 0)
  {
    PatternPieces(s, ms, |ms|, o) + [Literal(Tail(s, ms))]
  }

  /** What `MatchEx(o)` returns for template s. */
  function MatchPattern(s: string, o: bool): Regexp {
    var ms := Scan(s);
    if |s| == 0 then FalseRegexp
    else if ms == [] then
      if !o then InverseRegexp(s) else Compile("^(" + QuoteMeta(s) + ")$", [Literal(s)])
    else
      var atoms := PatternAtoms(s, ms, o);
      Compile("^(" + EmitAll(atoms) + ")$", atoms)
  }

  // ---------------------------------------------------------------------
  // The methods

  /** The `switch` of `MatchEx` for one placeholder, case by case in the
      source's order: the atom and the text `c` written for it. `AtomOf` is
      the table these cases amount to; the second group of letter cases
      (lines 217-226) repeats the guards of the first and is never reached,
      so it is not written here. The count text q is the one the loop
      carries; it is `strconv.Itoa(v)` whenever v > 0. */
  method PlaceholderPattern(verb: char, fixed: bool, v: int, q: string, raw: string, d: string)
    returns (a: Atom, c: string)
    requires v > 0 ==> q == Decimal(v)
    requires d == "" || d == "^"
    ensures a == AtomOf(verb, fixed, v, raw, d == "^")
    ensures c == Emit(a)
  {
    var neg := d == "^";
    ClassRanges(verb);
    if verb == 'd' {
      a, c := Class(verb, neg, OneOrMore), "([" + d + "0-9]+)";
      UnboundedCase(verb, d, "0-9]+)");
    } else if verb == 'h' {
      a, c := Class(verb, neg, OneOrMore), "([" + d + "a-fA-F0-9]+)";
      UnboundedCase(verb, d, "a-fA-F0-9]+)");
    } else if verb == 'n' && fixed && v > 0 {
      a, c := Class(verb, neg, Exactly(v)), "([" + d + "0-9]{" + q + "})";
      ClassCase(verb, d, "0-9]{", Exactly(v), "]{", q, "})");
    } else if verb == 'c' && fixed && v > 0 {
      a, c := Class(verb, neg, Exactly(v)), "([" + d + "a-zA-Z]{" + q + "})";
      ClassCase(verb, d, "a-zA-Z]{", Exactly(v), "]{", q, "})");
    } else if verb == 'u' && fixed && v > 0 {
      a, c := Class(verb, neg, Exactly(v)), "([" + d + "A-Z]{" + q + "})";
      ClassCase(verb, d, "A-Z]{", Exactly(v), "]{", q, "})");
    } else if verb == 'l' && fixed && v > 0 {
      a, c := Class(verb, neg, Exactly(v)), "([" + d + "a-z]{" + q + "})";
      ClassCase(verb, d, "a-z]{", Exactly(v), "]{", q, "})");
    } else if verb == 's' && fixed && v > 0 {
      a, c := Class(verb, neg, Exactly(v)), "([" + d + "a-zA-Z0-9]{" + q + "})";
      ClassCase(verb, d, "a-zA-Z0-9]{", Exactly(v), "]{", q, "})");
    } else if verb == 'n' && v > 0 {
      a, c := Class(verb, neg, UpTo(v)), "([" + d + "0-9]{1," + q + "})";
      ClassCase(verb, d, "0-9]{1,", UpTo(v), "]{1,", q, "})");
    } else if verb == 'c' && v > 0 {
      a, c := Class(verb, neg, UpTo(v)), "([" + d + "a-zA-Z]{1," + q + "})";
      ClassCase(verb, d, "a-zA-Z]{1,", UpTo(v), "]{1,", q, "})");
    } else if verb == 'u' && v > 0 {
      a, c := Class(verb, neg, UpTo(v)), "([" + d + "A-Z]{1," + q + "})";
      ClassCase(verb, d, "A-Z]{1,", UpTo(v), "]{1,", q, "})");
    } else if verb == 'l' && v > 0 {
      a, c := Class(verb, neg, UpTo(v)), "([" + d + "a-z]{1," + q + "})";
      ClassCase(verb, d, "a-z]{1,", UpTo(v), "]{1,", q, "})");
    } else if verb == 's' && v > 0 {
      a, c := Class(verb, neg, UpTo(v)), "([" + d + "a-zA-Z0-9]{1," + q + "})";
      ClassCase(verb, d, "a-zA-Z0-9]{1,", UpTo(v), "]{1,", q, "})");
    } else {
      a, c := Verbatim(raw), raw;
    }
  }

  /** The count v of one match and the count text q: `strconv.Itoa(v)` when
      the count parses, "0" when it overflows, and the previous q when the
      placeholder has no count. */
  method CountOf(s: string, m: Submatch, q0: string) returns (v: int, q: string)
    requires WellFormed(s, m)
    ensures v == CountValue(s, m)
    ensures v > 0 ==> q == Decimal(v)
    ensures m.groupStart < 0 ==> q == q0
  {
    v, q := -1, q0;
    if m.groupStart > 0 && m.groupEnd > m.groupStart {
      var n := Atoi(CountDigits(s, m));
      if n.None? {
        v, q := -1, "0";
      } else {
        v, q := n.value, Decimal(n.value);
      }
    }
  }

  /** How each verb's class is written inside `[...]`. */
  lemma ClassRanges(verb: char)
    ensures verb == 'd' || verb == 'n' ==> RangesText(Ranges(verb)) == "0-9"
    ensures verb == 'h' ==> RangesText(Ranges(verb)) == "a-fA-F0-9"
    ensures verb == 'c' ==> RangesText(Ranges(verb)) == "a-zA-Z"
    ensures verb == 'u' ==> RangesText(Ranges(verb)) == "A-Z"
    ensures verb == 'l' ==> RangesText(Ranges(verb)) == "a-z"
    ensures verb == 's' ==> RangesText(Ranges(verb)) == "a-zA-Z0-9"
  {
    if verb == 'd' {
      assert RangesText(Ranges('d')) == "0-9";
    } else if verb == 'n' {
      assert RangesText(Ranges('n')) == "0-9";
    } else if verb == 'h' {
      assert RangesText(Ranges('h')) == "a-fA-F0-9";
    } else if verb == 'c' {
      assert RangesText(Ranges('c')) == "a-zA-Z";
    } else if verb == 'u' {
      assert RangesText(Ranges('u')) == "A-Z";
    } else if verb == 'l' {
      assert RangesText(Ranges('l')) == "a-z";
    } else if verb == 's' {
      assert RangesText(Ranges('s')) == "a-zA-Z0-9";
    }
  }

  /** The text of a `+` class as the source writes it is the text `Emit` gives. */
  lemma UnboundedCase(verb: char, d: string, rx: string)
    requires d == "" || d == "^"
    requires rx == RangesText(Ranges(verb)) + "]+)"
    ensures "([" + d + rx == Emit(Class(verb, d == "^", OneOrMore))
  {
  }

  /** The text of a class as the source writes it (the ranges and the
      opening of the repetition in one literal) is the text `Emit` gives. */
  lemma ClassCase(verb: char, d: string, rx: string, r: Rep, x: string, q: string, z: string)
    requires d == "" || d == "^"
    requires rx == RangesText(Ranges(verb)) + x
    requires RepText(r) == x + q + z
    ensures "([" + d + rx + q + z == Emit(Class(verb, d == "^", r))
  {
  }

  lemma Regroup(p: string, x: string, y: string, z: string)
    ensures p + (x + y + z) == p + x + y + z
  {
  }

  lemma Regroup2(p: string, x: string, y: string)
    ensures p + (x + y) == p + x + y
  {
  }

  /** One step of the loop of `MatchEx`: the text grows by the quoted gap and
      the placeholder's text. */
  lemma PatternStep(p: string, atoms: seq<Atom>, g: string, a: Atom)
    ensures p + EmitAll(atoms + [Literal(g), a]) == p + EmitAll(atoms) + EscapeSlash(QuoteMeta(g)) + Emit(a)
  {
    EmitPair(atoms, Literal(g), a);
    Regroup(p, EmitAll(atoms), EscapeSlash(QuoteMeta(g)), Emit(a));
  }

  /** The end of the loop of `MatchEx`: the text grows by the quoted tail. */
  lemma PatternEnd(p: string, atoms: seq<Atom>, t: string)
    ensures p + EmitAll(atoms + [Literal(t)]) == p + EmitAll(atoms) + EscapeSlash(QuoteMeta(t))
  {
    EmitAllAppend(atoms, [Literal(t)]);
    assert EmitAll([Literal(t)]) == Emit(Literal(t)) + EmitAll([]);
    Regroup2(p, EmitAll(atoms), EscapeSlash(QuoteMeta(t)));
  }

  /** Appending two atoms appends their texts. */
  lemma EmitPair(atoms: seq<Atom>, a: Atom, b: Atom)
    ensures EmitAll(atoms + [a, b]) == EmitAll(atoms) + Emit(a) + Emit(b)
  {
    EmitAllAppend(atoms, [a, b]);
    EmitTwo(a, b);
  }

  lemma EmitTwo(a: Atom, b: Atom)
    ensures EmitAll([a, b]) == Emit(a) + Emit(b)
  {
    assert [a, b][1..] == [b];
    assert EmitAll([b]) == Emit(b) + EmitAll([]);
  }

  /** One turn of the loop of `MatchEx`: the gap before match x, the atom of
      the match, the text written for it, and the count text carried on. */
  method PatternOf(s: string, m: seq<Submatch>, x: nat, o: bool, l: nat, q0: string)
    returns (g: string, a: Atom, c: string, q: string)
    requires Spans(s, m, 0) && x < |m| && l == Cursor(m, x, 0)
    ensures g == Gap(s, m, x) && a == PatternAtom(s, m[x], o) && c == Emit(a)
    ensures m[x].groupStart < 0 ==> q == q0
  {
    assert WellFormed(s, m[x]) && l <= m[x].start;
    var v: int;
    v, q := CountOf(s, m[x], q0);
    a, c := PlaceholderPattern(s[m[x].end - 1], s[m[x].end - 2] == 'f', v, q, s[m[x].start..m[x].end], if o then "" else "^");
    g := s[l..m[x].start];
  }

  /** The loop of `MatchEx` over the matches: the pattern text after `^(`,
      its atoms, and the cursor after the last match. */
  method PatternLoop(s: string, m: seq<Submatch>, o: bool) returns (b: string, atoms: seq<Atom>, l: nat)
    requires Spans(s, m, 0)
    ensures l == Cursor(m, |m|, 0) <= |s|
    ensures atoms == PatternPieces(s, m, |m|, o)
    ensures b == "^(" + EmitAll(atoms)
  {
    ghost var gaps, places := GapAtoms(s, m), PlaceholderAtoms(s, m, o);
    b, atoms := "^(", [];
    l := 0;
    var q := "";
    for x := 0 to |m|
      invariant l == Cursor(m, x, 0) <= |s|
      invariant atoms == Weave(gaps, places, x)
      invariant b == "^(" + EmitAll(atoms)
    {
      var g, a, c;
      g, a, c, q := PatternOf(s, m, x, o, l, q);
      PatternStep("^(", atoms, g, a);
      assert gaps[x] == Literal(g) && places[x] == a;
      b := b + EscapeSlash(QuoteMeta(g)) + c;
      atoms := atoms + [Literal(g), a];
      l := m[x].end;
    }
  }

  /** `MatchEx` from the loop on: the pattern text after `^(` and its atoms,
      the quoted tail included. */
  method BuildPattern(s: string, m: seq<Submatch>, o: bool) returns (b: string, atoms: seq<Atom>)
    requires Spans(s, m, 0)
    ensures atoms == PatternAtoms(s, m, o)
    ensures b == "^(" + EmitAll(atoms) + ")$"
  {
    var l;
    b, atoms, l := PatternLoop(s, m, o);
    var t := s[l..];
    if l < |s| {
      b := b + EscapeSlash(QuoteMeta(t));
    } else {
      assert EscapeSlash(QuoteMeta(t)) == [];
    }
    assert b == "^(" + EmitAll(atoms) + EscapeSlash(QuoteMeta(t));
    PatternEnd("^(", atoms, t);
    assert t == Tail(s, m);
    atoms := atoms + [Literal(t)];
    assert b == "^(" + EmitAll(atoms);
    b := b + ")$";
  }

  /** `Matcher.MatchEx(o)`. */
  method MatchEx(s: string, o: bool) returns (r: Regexp)
    ensures r == MatchPattern(s, o)
    ensures |s| == 0 ==> r == FalseRegexp
    ensures |s| > 0 && Scan(s) == [] && !o ==> r == InverseRegexp(s)
    ensures |s| > 0 && Scan(s) == [] && o ==>
              && (r.Compiled? <==> Valid(s))
              && (r.Compiled? ==> forall w :: Matches(r, w) <==> w == s)
    ensures |s| > 0 && !Valid(s) && (o || Scan(s) != []) ==> r == FalseRegexp
  {
    if |s| == 0 {
      return FalseRegexp;
    }
    var m := Scan(s);
    if |m| == 0 {
      if !o {
        return InverseRegexp(s);
      }
      LiteralAcceptsExactly(s);
      LiteralSourceValid(s);
      return Compile("^(" + QuoteMeta(s) + ")$", [Literal(s)]);
    }
    var b, atoms := BuildPattern(s, m, o);
    PatternSourceValid(s, o);
    r := Compile(b, atoms);
  }

  /** `String()` of what `MatchEx` returns: "false" for the false matcher,
      the template itself for the inverse matcher, and otherwise the pattern
      text that was compiled: the quoted template when it has no
      placeholders (which compiles exactly when the template is well formed,
      see `MatchEx`), and the text `BuildPattern` writes when it has some. */
  lemma MatchSource(s: string, o: bool)
    ensures var r := MatchPattern(s, o);
      && (r.FalseRegexp? ==> Source(r) == "false")
      && (|s| > 0 && Scan(s) == [] && !o ==> Source(r) == s)
      && (|s| > 0 && Scan(s) == [] && r.Compiled? ==> Source(r) == "^(" + QuoteMeta(s) + ")$")
      && (|s| > 0 && Scan(s) != [] && r.Compiled? ==>
            Source(r) == "^(" + EmitAll(PatternAtoms(s, Scan(s), o)) + ")$")
  {
  }


  /** `Matcher.Match()`. */
  method Match(s: string) returns (r: Regexp)
    ensures r == MatchPattern(s, true)
  {
    r := MatchEx(s, true);
  }

  /** `Matcher.UnMatch()`. */
  method UnMatch(s: string) returns (r: Regexp)
    ensures r == MatchPattern(s, false)
  {
    r := MatchEx(s, false);
  }

  // ---------------------------------------------------------------------
  // Properties

  /** A single literal matches its own text and nothing else. */
  lemma LiteralAcceptsExactly(t: string)
    ensures forall w :: Accepts([Literal(t)], w) <==> w == t
  {
    forall w ensures Accepts([Literal(t)], w) <==> w == t {
      if w == t {
        assert w[..|w|] == t && w[|w|..] == [];
        assert [Literal(t)][1..] == [];
      }
    }
  }

  /** Atoms that each accept their own piece accept the pieces joined. */
  lemma {:induction false} AcceptsPieces(atoms: seq<Atom>, ws: seq<string>)
    requires |atoms| == |ws|
    requires forall i :: 0 <= i < |atoms| ==> AtomAccepts(atoms[i], ws[i])
    ensures Accepts(atoms, Concat(ws))
  {
    if atoms != [] {
      var w := Concat(ws);
      var k := |ws[0]|;
      assert w == ws[0] + Concat(ws[1..]);
      assert w[..k] == ws[0] && w[k..] == Concat(ws[1..]);
      AcceptsPieces(atoms[1..], ws[1..]);
      assert AtomAccepts(atoms[0], w[..k]) && Accepts(atoms[1..], w[k..]);
    }
  }

  predicate IsExact(a: Atom) {
    a.Literal? || a.Verbatim?
  }

  predicate NonEmptyRep(r: Rep) {
    !r.Exactly? || r.n >= 1
  }

  /** A pattern that starts with exact atoms for the first j pieces of w and
      then a negated class rejects w when piece j starts with a character of
      that class. */
  lemma {:induction false} RejectsAtNegatedClass(atoms: seq<Atom>, ws: seq<string>, j: nat)
    requires |atoms| == |ws| && j < |atoms|
    requires forall i :: 0 <= i < j ==> IsExact(atoms[i]) && atoms[i].text == ws[i]
    requires atoms[j].Class? && atoms[j].negated && NonEmptyRep(atoms[j].rep)
    requires |ws[j]| >= 1 && InClass(atoms[j].verb, ws[j][0])
    ensures !Accepts(atoms, Concat(ws))
  {
    var w := Concat(ws);
    assert w == ws[0] + Concat(ws[1..]);
    if j == 0 {
      forall k | 0 <= k <= |w| ensures !(AtomAccepts(atoms[0], w[..k]) && Accepts(atoms[1..], w[k..])) {
        if k >= 1 {
          assert w[..k][0] == ws[0][0];
        }
      }
    } else {
      assert forall i :: 0 <= i < j - 1 ==> atoms[1..][i] == atoms[i + 1] && ws[1..][i] == ws[i + 1];
      RejectsAtNegatedClass(atoms[1..], ws[1..], j - 1);
      forall k | 0 <= k <= |w| && AtomAccepts(atoms[0], w[..k]) ensures !Accepts(atoms[1..], w[k..]) {
        assert w[..k] == ws[0];
        assert w[k..] == Concat(ws[1..]);
      }
    }
  }

  /** The case table never produces an unbounded letter class, and it leaves
      a placeholder as written exactly when `String` does. */
  lemma AtomOfShape(verb: char, fixed: bool, v: int, raw: string, negated: bool)
    requires IsVerb(verb)
    ensures var a := AtomOf(verb, fixed, v, raw, negated);
      && (a.Class? ==> a.verb == verb && a.negated == negated && NonEmptyRep(a.rep))
      && (a.Class? && a.rep.OneOrMore? <==> verb == 'd' || verb == 'h')
      && (a.Verbatim? <==> IsLetterVerb(verb) && v <= 0)
  {
  }

  // ---------------------------------------------------------------------
  // Well-formed UTF-8 of the pattern

  /** What `regexp.QuoteMeta` writes for one character. */
  function QuoteChar(c: char): string {
    if IsMeta(c) then ['\\', c] else [c]
  }

  /** What `strings.ReplaceAll(_, "/", "\\/")` writes for one character. */
  function SlashChar(c: char): string {
    if c == '/' then "\\/" else [c]
  }

  lemma {:induction false} QuoteMetaChars(t: string)
    ensures QuoteMeta(t) == MapChars(QuoteChar, t)
  {
    if t != [] {
      QuoteMetaChars(t[1..]);
    }
  }

  lemma {:induction false} EscapeSlashChars(t: string)
    ensures EscapeSlash(t) == MapChars(SlashChar, t)
  {
    if t != [] {
      EscapeSlashChars(t[1..]);
    }
  }

  /** Every metacharacter is ASCII, so `QuoteChar` leaves the rest alone. */
  lemma QuoteCharKeeps()
    ensures KeepsNonAscii(QuoteChar)
  {
    forall c: char
      ensures if IsAscii(c) then |QuoteChar(c)| >= 1 && AllAscii(QuoteChar(c)) else QuoteChar(c) == [c]
    {
      if IsMeta(c) {
        assert IsAscii(c);
      }
    }
  }

  lemma SlashCharKeeps()
    ensures KeepsNonAscii(SlashChar)
  {
  }

  /** Quoting puts backslashes in front of ASCII characters only, so quoted
      text is well-formed UTF-8 exactly when the text is. */
  lemma QuotedValid(t: string)
    ensures Valid(QuoteMeta(t)) <==> Valid(t)
    ensures Valid(EscapeSlash(QuoteMeta(t))) <==> Valid(t)
  {
    QuoteCharKeeps();
    SlashCharKeeps();
    QuoteMetaChars(t);
    EscapeSlashChars(QuoteMeta(t));
    MapCharsValid(QuoteChar, t);
    MapCharsValid(SlashChar, QuoteMeta(t));
  }

  lemma DigitsAscii(t: string)
    requires AllDigits(t)
    ensures AllAscii(t)
  {
  }

  lemma RangesAscii(verb: char)
    ensures AllAscii(RangesText(Ranges(verb)))
  {
    if IsVerb(verb) {
      ClassRanges(verb);
    } else {
      ClassRanges('s');
      assert Ranges(verb) == Ranges('s');
    }
  }

  /** A placeholder is non-empty ASCII text. */
  lemma RawAscii(s: string, m: Submatch)
    requires WellFormed(s, m)
    ensures |Raw(s, m)| >= 1 && AllAscii(Raw(s, m))
  {
    var t := Raw(s, m);
    WellFormedIsPlaceholder(s, m);
    forall i | 0 <= i < |t|
      ensures IsAscii(t[i])
    {
      if 0 < i < |t| - 1 {
        var u := t[1..|t| - 1];
        assert t[i] == u[i - 1];
        if !AllDigits(u) {
          assert i - 1 == |u| - 1 || u[i - 1] == u[..|u| - 1][i - 1];
        }
      }
    }
  }

  /** The text written for a placeholder is non-empty ASCII text. */
  lemma AtomAscii(s: string, m: Submatch, o: bool)
    requires WellFormed(s, m)
    ensures |Emit(PatternAtom(s, m, o))| >= 1 && AllAscii(Emit(PatternAtom(s, m, o)))
  {
    var a := PatternAtom(s, m, o);
    if a.Class? {
      RangesAscii(a.verb);
      if !a.rep.OneOrMore? {
        DigitsAscii(Decimal(a.rep.n));
      }
      var neg := if a.negated then "^" else "";
      AsciiAppend("([" + neg, RangesText(Ranges(a.verb)));
      AsciiAppend("([" + neg + RangesText(Ranges(a.verb)), RepText(a.rep));
    } else {
      RawAscii(s, m);
    }
  }

  lemma AsciiAppend(a: string, b: string)
    requires AllAscii(a) && AllAscii(b)
    ensures AllAscii(a + b)
  {
  }

  /** The pattern `^(...)$` around a text is well-formed UTF-8 exactly when the
      text is. */
  lemma AnchoredValid(t: string)
    ensures Valid("^(" + t + ")$") <==> Valid(t)
  {
    AsciiPrefix("^(", t + ")$");
    assert "^(" + t + ")$" == "^(" + (t + ")$");
    ValidAppend(t, ")$");
    assert Valid(")$") by {
      assert ")$"[1..] == "$";
      assert "$"[1..] == [];
    }
  }

  /** The pattern of a template without placeholders compiles only when the
      template is well-formed UTF-8. */
  lemma LiteralSourceValid(s: string)
    ensures Valid("^(" + QuoteMeta(s) + ")$") <==> Valid(s)
  {
    AnchoredValid(QuoteMeta(s));
    QuotedValid(s);
  }

  /** The pattern of a template with placeholders is well-formed UTF-8 exactly
      when the template is: it quotes the text between the placeholders and
      writes ASCII text in place of each placeholder, itself ASCII. */
  lemma PatternSourceValid(s: string, o: bool)
    requires Scan(s) != []
    ensures Valid("^(" + EmitAll(PatternAtoms(s, Scan(s), o)) + ")$") <==> Valid(s)
  {
    var ms := Scan(s);
    var k := |ms|;
    var atoms := PatternAtoms(s, ms, o);
    AnchoredValid(EmitAll(atoms));
    var gs, ps, t := GapAtoms(s, ms), PlaceholderAtoms(s, ms, o), Tail(s, ms);
    EmitAllJoined(atoms);
    forall x | 0 <= x < k
      ensures |Emit(ps[x])| >= 1 && AllAscii(Emit(ps[x]))
    {
      AtomAscii(s, ms[x], o);
    }
    ValidWeave(Emit, gs, ps, k, Literal(t));
    var tgs, trs := Gaps(s, ms), Raws(s, ms);
    TemplateDecomposes(s);
    ConcatJoined(TemplatePieces(s, ms, k) + [t]);
    forall x | 0 <= x < k
      ensures |Itself(trs[x])| >= 1 && AllAscii(Itself(trs[x]))
    {
      RawAscii(s, ms[x]);
    }
    ValidWeave(Itself, tgs, trs, k, t);
    forall x | 0 <= x < k
      ensures Valid(Emit(gs[x])) <==> Valid(Itself(tgs[x]))
    {
      QuotedValid(Gap(s, ms, x));
    }
    QuotedValid(t);
  }

  lemma {:induction false} EmitAllJoined(atoms: seq<Atom>)
    ensures EmitAll(atoms) == Joined(Emit, atoms)
  {
    if atoms != [] {
      EmitAllJoined(atoms[1..]);
    }
  }
}
