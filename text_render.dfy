/** `Matcher.String`: render a template by replacing each placeholder with
    generated content and copying the literal text between them.

    The random generators of the source (`util.Rand.String*`,
    `util.FastRand`, `util.FastRandN`) are oracles here: `texts(x)` is the
    string a `util.Rand` call returns for the placeholder numbered x, and
    `numbers(x)` the number `util.FastRand`/`util.FastRandN` returns for it.
    Which generator is called, with which length, and how a number is
    printed are modelled exactly. */
module TextRender {

  import opened Numerals
  import opened TextScan

  /** The branch of the source's `switch` a placeholder takes. */
  datatype Fill =
    | RandomFixed(verb: char, n: nat)   // util.Rand.StringNumber/Characters/Upper/Lower/String(v)
    | FixedDecimal(n: nat)              // strconv.Itoa(v)
    | FixedHex(n: nat)                  // strconv.FormatInt(v, 16)
    | DecimalBelow(n: nat)              // strconv.Itoa(util.FastRandN(v))
    | HexBelow(n: nat)                  // strconv.FormatInt(util.FastRandN(v), 16)
    | RandomRange(verb: char, n: nat)   // util.Rand.String*Range(1, v)
    | AnyDecimal                        // strconv.Itoa(util.FastRand())
    | AnyHex                            // strconv.FormatInt(util.FastRand(), 16)
    | AsWritten                          // the placeholder's own text

  /** The `switch` of `String`, in its order: verb, `f` flag and count v. */
  function FillOf(verb: char, fixed: bool, v: int): Fill {
    if IsLetterVerb(verb) && fixed && v > 0 then RandomFixed(verb, v)
    else if verb == 'd' && fixed && v >= 0 then FixedDecimal(v)
    else if verb == 'h' && fixed && v >= 0 then FixedHex(v)
    else if verb == 'd' && v >= 0 then DecimalBelow(v)
    else if verb == 'h' && v >= 0 then HexBelow(v)
    else if IsLetterVerb(verb) && v > 0 then RandomRange(verb, v)
    else if verb == 'd' then AnyDecimal
    else if verb == 'h' then AnyHex
    else AsWritten
  }

  /** The text a placeholder is replaced with, given what the oracles return. */
  function Content(f: Fill, raw: string, text: string, number: nat): string {
    match f
    case RandomFixed(_, _) => text
    case RandomRange(_, _) => text
    case FixedDecimal(n) => Decimal(n)
    case FixedHex(n) => Hex(n)
    case DecimalBelow(_) => Decimal(number)
    case AnyDecimal => Decimal(number)
    case HexBelow(_) => Hex(number)
    case AnyHex => Hex(number)
    case AsWritten => raw
  }

  function FillAt(s: string, m: Submatch): Fill
    requires WellFormed(s, m)
  {
    FillOf(Verb(s, m), IsFixed(s, m), CountValue(s, m))
  }

  /** The replacement for match x of the list. */
  function Replacement(s: string, ms: seq<Submatch>, x: nat, texts: nat -> string, numbers: nat -> nat): string
    requires AllWellFormed(s, ms) && x < |ms|
  {
    Content(FillAt(s, ms[x]), Raw(s, ms[x]), texts(x), numbers(x))
  }

  /** The replacements of all matches, in order. */
  function Replacements(s: string, ms: seq<Submatch>, texts: nat -> string, numbers: nat -> nat): (rs: seq<string>)
    requires AllWellFormed(s, ms)
    ensures |rs| == |ms|
    ensures forall x :: 0 <= x < |ms| ==> rs[x] == Replacement(s, ms, x, texts, numbers)
  {
    seq(|ms|, x requires 0 <= x < |ms| => Replacement(s, ms, x, texts, numbers))
  }

  /** All pieces of the output: gap, replacement, ..., gap, replacement, tail. */
  function Pieces(s: string, texts: nat -> string, numbers: nat -> nat): seq<string> {
    var ms := Scan(s);
    Interleave(s, ms, |ms|, Replacements(s, ms, texts, numbers)) + [Tail(s, ms)]
  }

  /** What `String` returns. */
  function Rendered(s: string, texts: nat -> string, numbers: nat -> nat): string {
    Concat(Pieces(s, texts, numbers))
  }

  /** The `switch` of `String` for one placeholder with verb `verb`, `f` flag
      `fixed` and count `v`, case by case in the source's order; `text` and
      `number` are what the generators return. `FillOf` is the table these
      cases amount to. */
  method Replace(verb: char, fixed: bool, v: int, raw: string, text: string, number: nat) returns (c: string)
    ensures c == Content(FillOf(verb, fixed, v), raw, text, number)
  {
    if verb == 'n' && fixed && v > 0 {
      c := text;                      // util.Rand.StringNumber(v)
    } else if verb == 'c' && fixed && v > 0 {
      c := text;                      // util.Rand.StringCharacters(v)
    } else if verb == 'u' && fixed && v > 0 {
      c := text;                      // util.Rand.StringUpper(v)
    } else if verb == 'l' && fixed && v > 0 {
      c := text;                      // util.Rand.StringLower(v)
    } else if verb == 's' && fixed && v > 0 {
      c := text;                      // util.Rand.String(v)
    } else if verb == 'd' && fixed && v >= 0 {
      c := Decimal(v);
    } else if verb == 'h' && fixed && v >= 0 {
      c := Hex(v);
    } else if verb == 'd' && v >= 0 {
      c := Decimal(number);           // util.FastRandN(v)
    } else if verb == 'h' && v >= 0 {
      c := Hex(number);
    } else if verb == 'n' && v > 0 {
      c := text;                      // util.Rand.StringNumberRange(1, v)
    } else if verb == 'c' && v > 0 {
      c := text;                      // util.Rand.StringCharactersRange(1, v)
    } else if verb == 'u' && v > 0 {
      c := text;                      // util.Rand.StringUpperRange(1, v)
    } else if verb == 'l' && v > 0 {
      c := text;                      // util.Rand.StringLowerRange(1, v)
    } else if verb == 's' && v > 0 {
      c := text;                      // util.Rand.StringRange(1, v)
    } else if verb == 'd' {
      c := Decimal(number);           // util.FastRand()
    } else if verb == 'h' {
      c := Hex(number);
    } else {
      c := raw;
    }
  }

  /** `Matcher.String()` (util/text/matcher.go): a loop over the match list
      that appends to a builder and advances the cursor l. */
  method String(s: string, texts: nat -> string, numbers: nat -> nat) returns (o: string)
    ensures o == Rendered(s, texts, numbers)
    ensures |s| == 0 ==> o == ""
  {
    if |s| == 0 {
      EmptyUnchanged(s, texts, numbers);
      o := s;
      return;
    }
    var m := Scan(s);
    if |m| == 0 {
      NoPlaceholderUnchanged(s, texts, numbers);
      o := s;
      return;
    }
    o := Substitute(s, m, texts, numbers);
  }

  /** The loop of `String`: copy the gap before each match, then its
      replacement, then the tail after the last match. */
  method Substitute(s: string, m: seq<Submatch>, texts: nat -> string, numbers: nat -> nat) returns (o: string)
    requires Spans(s, m, 0)
    ensures o == Concat(Interleave(s, m, |m|, Replacements(s, m, texts, numbers)) + [Tail(s, m)])
  {
    ghost var rs := Replacements(s, m, texts, numbers);
    var l := 0;
    var b := "";
    for x := 0 to |m|
      invariant l == Cursor(m, x, 0) <= |s|
      invariant b == Concat(Interleave(s, m, x, rs))
    {
      assert WellFormed(s, m[x]) && l <= m[x].start;
      var c := Replace(s[m[x].end - 1], s[m[x].end - 2] == 'f', CountValue(s, m[x]), s[m[x].start..m[x].end], texts(x), numbers(x));
      assert c == rs[x];
      InterleaveStep(s, m, x, rs);
      b := b + s[l..m[x].start] + c;
      l := m[x].end;
    }
    ConcatAppend(Interleave(s, m, |m|, rs), [Tail(s, m)]);
    assert Concat([Tail(s, m)]) == Tail(s, m) + Concat([]);
    if l < |s| {
      b := b + s[l..];
    }
    o := b;
  }

  // ---------------------------------------------------------------------
  // Properties of the rendering

  /** The rendered output has the template's shape: the literal gaps are
      copied verbatim and in order, each placeholder is replaced by its own
      replacement, and the tail comes last. */
  lemma RenderShape(s: string, texts: nat -> string, numbers: nat -> nat)
    ensures var ms, ps := Scan(s), Pieces(s, texts, numbers);
      && |ps| == 2 * |ms| + 1
      && ps[2 * |ms|] == Tail(s, ms)
      && (forall x :: 0 <= x < |ms| ==> ps[2 * x] == Gap(s, ms, x))
      && (forall x :: 0 <= x < |ms| ==> ps[2 * x + 1] == Replacement(s, ms, x, texts, numbers))
  {
    var ms := Scan(s);
    var rs := Replacements(s, ms, texts, numbers);
    forall x | 0 <= x < |ms|
      ensures Pieces(s, texts, numbers)[2 * x] == Gap(s, ms, x)
      ensures Pieces(s, texts, numbers)[2 * x + 1] == Replacement(s, ms, x, texts, numbers)
    {
      InterleaveAt(s, ms, |ms|, rs, x);
    }
  }

  /** A template with no placeholder (the empty one included) is returned unchanged. */
  lemma NoPlaceholderUnchanged(s: string, texts: nat -> string, numbers: nat -> nat)
    requires Scan(s) == []
    ensures Rendered(s, texts, numbers) == s
  {
    var ms := Scan(s);
    assert Pieces(s, texts, numbers) == [s];
    assert Concat([s]) == s + Concat([]);
  }

  lemma EmptyUnchanged(s: string, texts: nat -> string, numbers: nat -> nat)
    requires |s| == 0
    ensures Rendered(s, texts, numbers) == s
  {
    assert Scan(s) == [];
    NoPlaceholderUnchanged(s, texts, numbers);
  }

  /** Exactly the letter placeholders with no count, or a count of at most 0,
      are left as their own text (`%n`, `%0fs`); `d` and `h` never are. */
  lemma AsWrittenIff(s: string, m: Submatch)
    requires WellFormed(s, m)
    ensures FillAt(s, m) == AsWritten <==> IsLetterVerb(Verb(s, m)) && CountValue(s, m) <= 0
  {
  }

  /** `%Nfd` renders the decimal of N and `%Nfh` its lower-case hex, whatever
      the generators return. */
  lemma FixedNumberRendering(s: string, m: Submatch, text: string, number: nat, text': string, number': nat)
    requires WellFormed(s, m) && IsFixed(s, m) && (Verb(s, m) == 'd' || Verb(s, m) == 'h')
    requires m.groupStart >= 0 && DecimalValue(CountDigits(s, m)) <= MaxInt
    ensures var n := DecimalValue(CountDigits(s, m));
            var r := Content(FillAt(s, m), Raw(s, m), text, number);
            && r == Content(FillAt(s, m), Raw(s, m), text', number')
            && (Verb(s, m) == 'd' ==> r == Decimal(n) && DecimalValue(r) == n)
            && (Verb(s, m) == 'h' ==> r == Hex(n) && HexValue(r) == n)
  {
    var n := DecimalValue(CountDigits(s, m));
    DecimalRoundTrip(n);
    HexRoundTrip(n);
  }

  /** When every placeholder is left as its own text, `String` returns the
      template unchanged. */
  lemma AllAsWrittenRendersTemplate(s: string, texts: nat -> string, numbers: nat -> nat)
    requires forall x :: 0 <= x < |Scan(s)| ==> FillAt(s, Scan(s)[x]) == AsWritten
    ensures Rendered(s, texts, numbers) == s
  {
    var ms := Scan(s);
    assert Replacements(s, ms, texts, numbers) == Raws(s, ms);
    TemplateDecomposes(s);
  }
}
