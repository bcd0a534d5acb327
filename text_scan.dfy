/** The placeholder tokeniser of the template `Matcher` (package util/text).

    A placeholder is the regular expression `%(\d+f?)?[dhcsuln]`: a percent
    sign, an optional count (decimal digits, optionally followed by `f` for
    "fixed length") and one verb letter. The source finds them with
    `FindAllStringSubmatchIndex(s, -1)`, i.e. leftmost, non-overlapping
    matches from left to right. Here that search is written out as a
    deterministic scanner; the lemmas show it finds exactly the matches of
    the expression. Go strings are byte strings: one `char` here is one byte
    there, and every character the expression looks at is ASCII. */
module TextScan {

  import opened Wrappers
  import opened Numerals

  /** The verbs `[dhcsuln]`. */
  predicate IsVerb(c: char) {
    c == 'd' || c == 'h' || c == 'c' || c == 's' || c == 'u' || c == 'l' || c == 'n'
  }

  /** The text of capture group 2, `\d+f?`. */
  predicate IsCount(t: string) {
    || (|t| >= 1 && AllDigits(t))
    || (|t| >= 2 && t[|t| - 1] == 'f' && AllDigits(t[..|t| - 1]))
  }

  /** The whole text t is one placeholder: the expression, anchored at both ends. */
  predicate IsPlaceholder(t: string) {
    && |t| >= 2
    && t[0] == '%'
    && IsVerb(t[|t| - 1])
    && (|t| == 2 || IsCount(t[1..|t| - 1]))
  }

  /** One entry of the match list: the indices `m[x][0]`, `m[x][1]` of the
      whole match and `m[x][4]`, `m[x][5]` of the count group (both -1 when
      the count is absent). */
  datatype Submatch = Submatch(start: nat, end: nat, groupStart: int, groupEnd: int)

  /** What the regular-expression library guarantees of a reported match. */
  predicate WellFormed(s: string, m: Submatch) {
    && m.start + 2 <= m.end <= |s|
    && s[m.start] == '%'
    && IsVerb(s[m.end - 1])
    && if m.groupStart < 0 then
         m.groupStart == -1 && m.groupEnd == -1 && m.end == m.start + 2
       else
         m.groupStart == m.start + 1 && m.groupEnd == m.end - 1 && IsCount(s[m.groupStart..m.groupEnd])
  }

  /** The end of the run of decimal digits that starts at j. */
  function DigitsEnd(s: string, j: nat): (e: nat)
    requires j <= |s|
    ensures j <= e <= |s|
    ensures AllDigits(s[j..e])
    ensures e < |s| ==> !IsDigit(s[e])
    decreases |s| - j
  {
    if j < |s| && IsDigit(s[j]) then
      var e := DigitsEnd(s, j + 1);
      assert s[j..e] == [s[j]] + s[j + 1..e];
      e
    else j
  }

  /** The match of the placeholder expression that starts exactly at i, if
      any: after `%`, the digits are taken greedily, then an optional `f`,
      then the verb. No backtracking is needed because neither a digit nor
      `f` is a verb. */
  function PlaceholderAt(s: string, i: nat): (r: Option<Submatch>)
    ensures r.Some? ==> r.value.start == i && WellFormed(s, r.value)
  {
    if i + 1 >= |s| || s[i] != '%' then None
    else
      var e := DigitsEnd(s, i + 1);
      if e == i + 1 then
        if IsVerb(s[i + 1]) then Some(Submatch(i, i + 2, -1, -1)) else None
      else if e < |s| && IsVerb(s[e]) then
        Some(Submatch(i, e + 1, i + 1, e))
      else if e + 1 < |s| && s[e] == 'f' && IsVerb(s[e + 1]) then
        assert s[i + 1..e + 1][..e - i - 1] == s[i + 1..e];
        Some(Submatch(i, e + 2, i + 1, e + 1))
      else None
  }

  /** A reported match covers a placeholder, and its count group is the text
      between `%` and the verb. */
  lemma WellFormedIsPlaceholder(s: string, m: Submatch)
    requires WellFormed(s, m)
    ensures IsPlaceholder(s[m.start..m.end])
  {
    var t := s[m.start..m.end];
    if m.groupStart >= 0 {
      SliceOfSlice(s, m.start, m.end, 1, |t| - 1);
      assert t[1..|t| - 1] == s[m.groupStart..m.groupEnd];
    }
  }

  lemma SliceOfSlice<T>(s: seq<T>, a: nat, b: nat, c: nat, d: nat)
    requires a <= b <= |s| && c <= d <= b - a
    ensures s[a..b][c..d] == s[a + c..a + d]
  {
    forall i | 0 <= i < d - c ensures s[a..b][c..d][i] == s[a + c..a + d][i] {
      assert s[a..b][c..d][i] == s[a..b][c + i] == s[a + c + i];
    }
  }

  /** Soundness of the scanner step: what it reports is a placeholder. */
  lemma PlaceholderAtSound(s: string, i: nat)
    ensures PlaceholderAt(s, i).Some? ==> IsPlaceholder(s[i..PlaceholderAt(s, i).value.end])
  {
    if PlaceholderAt(s, i).Some? {
      WellFormedIsPlaceholder(s, PlaceholderAt(s, i).value);
    }
  }

  /** Completeness of the scanner step: every placeholder that starts at i is
      the one the scanner reports. In particular the placeholder starting at a
      position is unique, so leftmost-first matching has no choice to make. */
  lemma PlaceholderAtComplete(s: string, i: nat, e: nat)
    requires i < e <= |s|
    requires IsPlaceholder(s[i..e])
    ensures PlaceholderAt(s, i).Some? && PlaceholderAt(s, i).value.end == e
  {
    var t := s[i..e];
    assert s[i] == t[0] && s[e - 1] == t[|t| - 1];
    if |t| == 2 {
      assert s[i + 1] == t[1];
      ShortComplete(s, i);
    } else {
      SliceOfSlice(s, i, e, 1, |t| - 1);
      CountedComplete(s, i, e);
    }
  }

  /** `%` and a verb. */
  lemma ShortComplete(s: string, i: nat)
    requires i + 2 <= |s| && s[i] == '%' && IsVerb(s[i + 1])
    ensures PlaceholderAt(s, i) == Some(Submatch(i, i + 2, -1, -1))
  {
    assert !IsDigit(s[i + 1]);
    assert DigitsEnd(s, i + 1) == i + 1;
  }

  /** `%`, a count and a verb. */
  lemma CountedComplete(s: string, i: nat, e: nat)
    requires i + 3 <= e <= |s| && s[i] == '%' && IsVerb(s[e - 1])
    requires IsCount(s[i + 1..e - 1])
    ensures PlaceholderAt(s, i).Some? && PlaceholderAt(s, i).value.end == e
  {
    var g := s[i + 1..e - 1];
    assert g[|g| - 1] == s[e - 2];
    if s[e - 2] == 'f' {
      assert !AllDigits(g) by { assert !IsDigit(g[|g| - 1]); }
      SliceOfSlice(s, i + 1, e - 1, 0, |g| - 1);
      FixedComplete(s, i, e);
    } else {
      PlainComplete(s, i, e);
    }
  }

  /** `%`, digits, `f` and a verb. */
  lemma FixedComplete(s: string, i: nat, e: nat)
    requires i + 4 <= e <= |s| && s[i] == '%' && s[e - 2] == 'f' && IsVerb(s[e - 1])
    requires AllDigits(s[i + 1..e - 2])
    ensures PlaceholderAt(s, i) == Some(Submatch(i, e, i + 1, e - 1))
  {
    DigitsEndOfRun(s, i + 1, e - 2);
  }

  /** `%`, digits and a verb. */
  lemma PlainComplete(s: string, i: nat, e: nat)
    requires i + 3 <= e <= |s| && s[i] == '%' && IsVerb(s[e - 1])
    requires AllDigits(s[i + 1..e - 1])
    ensures PlaceholderAt(s, i) == Some(Submatch(i, e, i + 1, e - 1))
  {
    DigitsEndOfRun(s, i + 1, e - 1);
  }

  /** A maximal run of digits ends where `DigitsEnd` says. */
  lemma {:induction false} DigitsEndOfRun(s: string, j: nat, k: nat)
    requires j <= k < |s|
    requires AllDigits(s[j..k])
    requires !IsDigit(s[k])
    ensures DigitsEnd(s, j) == k
    decreases k - j
  {
    if j < k {
      assert s[j] == s[j..k][0];
      assert s[j + 1..k] == s[j..k][1..];
      DigitsEndOfRun(s, j + 1, k);
    }
  }

  /** Two placeholders starting at the same position have the same length. */
  lemma PlaceholderUnique(s: string, i: nat, e1: nat, e2: nat)
    requires i < e1 <= |s| && i < e2 <= |s|
    requires IsPlaceholder(s[i..e1]) && IsPlaceholder(s[i..e2])
    ensures e1 == e2
  {
    PlaceholderAtComplete(s, i, e1);
    PlaceholderAtComplete(s, i, e2);
  }

  /** Where the scan stood before match x: 0 before the first match, else the
      end of the previous match (the source's cursor `l`). */
  function Cursor(ms: seq<Submatch>, x: nat, from: nat): nat
    requires x <= |ms|
  {
    if x == 0 then from else ms[x - 1].end
  }

  /** The match list found from position `from` is the leftmost,
      non-overlapping list: every entry is a well-formed match, entries are
      in order and do not overlap, and no placeholder starts anywhere in the
      text the list skips. */
  predicate ScanValid(s: string, from: nat, ms: seq<Submatch>) {
    && Spans(s, ms, from)
    && GapsClear(s, ms, from)
    && TailClear(s, ms, from)
  }

  /** The structural half of `ScanValid`: well-formed, ordered, disjoint. */
  predicate Spans(s: string, ms: seq<Submatch>, from: nat) {
    && AllWellFormed(s, ms)
    && InOrder(ms, from)
    && from <= Cursor(ms, |ms|, from) <= |s|
  }

  predicate AllWellFormed(s: string, ms: seq<Submatch>) {
    forall x :: 0 <= x < |ms| ==> WellFormed(s, ms[x])
  }

  predicate InOrder(ms: seq<Submatch>, from: nat) {
    forall x {:trigger Cursor(ms, x, from)} :: 0 <= x < |ms| ==> Cursor(ms, x, from) <= ms[x].start
  }

  predicate GapsClear(s: string, ms: seq<Submatch>, from: nat) {
    forall x, j {:trigger Cursor(ms, x, from), PlaceholderAt(s, j)} :: 0 <= x < |ms| && Cursor(ms, x, from) <= j < ms[x].start ==> PlaceholderAt(s, j).None?
  }

  predicate TailClear(s: string, ms: seq<Submatch>, from: nat) {
    forall j :: Cursor(ms, |ms|, from) <= j < |s| ==> PlaceholderAt(s, j).None?
  }

  /** `FindAllStringSubmatchIndex(s[from..], -1)`, shifted to indices of s. */
  function ScanFrom(s: string, from: nat): (ms: seq<Submatch>)
    requires from <= |s|
    ensures ScanValid(s, from, ms)
    decreases |s| - from
  {
    if from == |s| then []
    else
      match PlaceholderAt(s, from)
      case Some(m) =>
        var rest := ScanFrom(s, m.end);
        ScanConsValid(s, from, m, rest);
        [m] + rest
      case None =>
        var rest := ScanFrom(s, from + 1);
        ScanSkipValid(s, from, rest);
        rest
  }

  /** A match found at `from`, followed by a valid list from its end, is a
      valid list from `from`. */
  lemma ScanConsValid(s: string, from: nat, m: Submatch, rest: seq<Submatch>)
    requires from < |s| && PlaceholderAt(s, from) == Some(m)
    requires ScanValid(s, m.end, rest)
    ensures ScanValid(s, from, [m] + rest)
  {
    var ms := [m] + rest;
    ConsCursor(m, rest, from);
    ConsWellFormed(s, m, rest);
    ConsGapsClear(s, from, m, rest);
  }

  lemma ConsCursor(m: Submatch, rest: seq<Submatch>, from: nat)
    requires from <= m.start && InOrder(rest, m.end)
    ensures forall x :: 1 <= x <= |rest| + 1 ==> Cursor([m] + rest, x, from) == Cursor(rest, x - 1, m.end)
    ensures InOrder([m] + rest, from)
  {
    var ms := [m] + rest;
    forall x | 0 <= x < |ms| ensures Cursor(ms, x, from) <= ms[x].start {
      if x > 0 {
        assert ms[x] == rest[x - 1];
        assert Cursor(rest, x - 1, m.end) <= rest[x - 1].start;
      }
    }
  }

  lemma ConsWellFormed(s: string, m: Submatch, rest: seq<Submatch>)
    requires WellFormed(s, m) && AllWellFormed(s, rest)
    ensures AllWellFormed(s, [m] + rest)
  {
    var ms := [m] + rest;
    forall x | 0 <= x < |ms| ensures WellFormed(s, ms[x]) {
      if x > 0 {
        assert ms[x] == rest[x - 1];
      }
    }
  }

  lemma ConsGapsClear(s: string, from: nat, m: Submatch, rest: seq<Submatch>)
    requires from == m.start
    requires GapsClear(s, rest, m.end)
    requires forall x :: 1 <= x <= |rest| + 1 ==> Cursor([m] + rest, x, from) == Cursor(rest, x - 1, m.end)
    ensures GapsClear(s, [m] + rest, from)
  {
    var ms := [m] + rest;
    forall x, j | 0 <= x < |ms| && Cursor(ms, x, from) <= j < ms[x].start
      ensures PlaceholderAt(s, j).None?
    {
      assert x >= 1;
      assert ms[x] == rest[x - 1];
      assert Cursor(rest, x - 1, m.end) <= j < rest[x - 1].start;
    }
  }

  /** Skipping a position where no placeholder starts keeps a valid list valid. */
  lemma ScanSkipValid(s: string, from: nat, rest: seq<Submatch>)
    requires from < |s| && PlaceholderAt(s, from).None?
    requires ScanValid(s, from + 1, rest)
    ensures ScanValid(s, from, rest)
  {
    SkipInOrder(from, rest);
    SkipGapsClear(s, from, rest);
    SkipTailClear(s, from, rest);
  }

  lemma SkipInOrder(from: nat, rest: seq<Submatch>)
    requires InOrder(rest, from + 1)
    ensures InOrder(rest, from)
    ensures Cursor(rest, |rest|, from + 1) <= Cursor(rest, |rest|, from) + 1
  {
    forall x | 0 <= x < |rest| ensures Cursor(rest, x, from) <= rest[x].start {
      assert Cursor(rest, x, from + 1) <= rest[x].start;
    }
  }

  lemma SkipGapsClear(s: string, from: nat, rest: seq<Submatch>)
    requires PlaceholderAt(s, from).None?
    requires GapsClear(s, rest, from + 1)
    ensures GapsClear(s, rest, from)
  {
    forall x, j | 0 <= x < |rest| && Cursor(rest, x, from) <= j < rest[x].start
      ensures PlaceholderAt(s, j).None?
    {
      if j != from {
        assert Cursor(rest, x, from + 1) <= j < rest[x].start;
      }
    }
  }

  lemma SkipTailClear(s: string, from: nat, rest: seq<Submatch>)
    requires PlaceholderAt(s, from).None?
    requires TailClear(s, rest, from + 1)
    ensures TailClear(s, rest, from)
  {
    forall j | Cursor(rest, |rest|, from) <= j < |s|
      ensures PlaceholderAt(s, j).None?
    {
      if j > from {
        assert Cursor(rest, |rest|, from + 1) <= j;
      }
    }
  }

  /** The match list of the whole template. */
  function Scan(s: string): (ms: seq<Submatch>)
    ensures ScanValid(s, 0, ms)
  {
    ScanFrom(s, 0)
  }

  /** No placeholder anywhere: the match list is empty. Conversely an empty
      match list means no placeholder occurs in the template at all. */
  lemma ScanEmptyIff(s: string)
    ensures Scan(s) == [] <==> forall i, e :: 0 <= i < e <= |s| ==> !IsPlaceholder(s[i..e])
  {
    var ms := Scan(s);
    if ms == [] {
      forall i, e | 0 <= i < e <= |s| ensures !IsPlaceholder(s[i..e]) {
        if IsPlaceholder(s[i..e]) {
          PlaceholderAtComplete(s, i, e);
          assert false;
        }
      }
    } else {
      WellFormedIsPlaceholder(s, ms[0]);
    }
  }

  /** `%fd` contains no placeholder: a count needs a digit before `f`. */
  lemma FixedNeedsDigits()
    ensures Scan("%fd") == []
  {
    var a := "%fd";
    assert PlaceholderAt(a, 0).None? by { assert DigitsEnd(a, 1) == 1; }
    assert PlaceholderAt(a, 1).None? && PlaceholderAt(a, 2).None?;
    ScanFromNone(a, 0);
  }

  /** `%5fx` contains no placeholder: `x` is no verb. */
  lemma UnknownVerb()
    ensures Scan("%5fx") == []
  {
    var b := "%5fx";
    forall i | 0 <= i < |b|
      ensures PlaceholderAt(b, i).None?
    {
      if i == 0 {
        UnknownVerbAtStart(b);
      } else {
        assert b[i] != '%';
      }
    }
    ScanFromNone(b, 0);
  }

  lemma UnknownVerbAtStart(b: string)
    requires b == "%5fx"
    ensures PlaceholderAt(b, 0).None?
  {
    assert DigitsEnd(b, 3) == 3;
    assert DigitsEnd(b, 2) == 2;
    assert DigitsEnd(b, 1) == 2;
    assert b[2] == 'f' && !IsVerb(b[2]) && !IsVerb(b[3]);
  }

  /** A scan that finds no match at any position finds nothing. */
  lemma {:induction false} ScanFromNone(s: string, from: nat)
    requires from <= |s|
    requires forall i :: from <= i < |s| ==> PlaceholderAt(s, i).None?
    ensures ScanFrom(s, from) == []
    decreases |s| - from
  {
    if from < |s| {
      ScanFromNone(s, from + 1);
    }
  }

  // ---------------------------------------------------------------------
  // The fields of one match, as both loops of the source read them.

  /** The verb: `s[m[x][1]-1]`. */
  function Verb(s: string, m: Submatch): char
    requires WellFormed(s, m)
  {
    s[m.end - 1]
  }

  /** The `f` (fixed length) flag: `s[m[x][1]-2] == 'f'`. Before the verb
      there is `%`, a digit or `f`, so this is exactly "the count ends in f". */
  function IsFixed(s: string, m: Submatch): bool
    requires WellFormed(s, m)
  {
    s[m.end - 2] == 'f'
  }

  /** The placeholder's own text `s[m[x][0]:m[x][1]]`. */
  function Raw(s: string, m: Submatch): string
    requires WellFormed(s, m)
  {
    s[m.start..m.end]
  }

  /** The digits of the count, without the `f`. */
  function CountDigits(s: string, m: Submatch): (t: string)
    requires WellFormed(s, m) && m.groupStart >= 0
    ensures |t| >= 1 && AllDigits(t)
  {
    var g := s[m.groupStart..m.groupEnd];
    if s[m.groupEnd - 1] == 'f' then
      assert g[|g| - 1] == 'f' && !IsDigit(g[|g| - 1]);
      assert g[..|g| - 1] == s[m.groupStart..m.groupEnd - 1];
      s[m.groupStart..m.groupEnd - 1]
    else
      g
  }

  /** The count `v`: the value of the digits, or -1 when there are none or
      when `strconv.Atoi` reports an out-of-range value. */
  function CountValue(s: string, m: Submatch): (v: int)
    requires WellFormed(s, m)
    ensures v == -1 || (m.groupStart >= 0 && 0 <= v == DecimalValue(CountDigits(s, m)) <= MaxInt)
    ensures m.groupStart >= 0 && DecimalValue(CountDigits(s, m)) <= MaxInt ==> v == DecimalValue(CountDigits(s, m))
  {
    if m.groupStart > 0 && m.groupEnd > m.groupStart then
      match Atoi(CountDigits(s, m))
      case Some(n) => n
      case None => -1
    else -1
  }

  /** The letter verbs `n c u l s`, which draw random text. */
  predicate IsLetterVerb(c: char) {
    c == 'n' || c == 'c' || c == 'u' || c == 'l' || c == 's'
  }

  // ---------------------------------------------------------------------
  // The pieces a template falls into.

  /** The literal text before match x, `s[l:m[x][0]]`. */
  function Gap(s: string, ms: seq<Submatch>, x: nat): string
    requires Spans(s, ms, 0) && x < |ms|
  {
    s[Cursor(ms, x, 0)..ms[x].start]
  }

  /** The literal text after the last match, `s[l:]`. */
  function Tail(s: string, ms: seq<Submatch>): string
    requires Spans(s, ms, 0)
  {
    s[Cursor(ms, |ms|, 0)..]
  }

  function Concat(ps: seq<string>): string {
    if ps == [] then [] else ps[0] + Concat(ps[1..])
  }

  lemma {:induction false} ConcatAppend(ps: seq<string>, qs: seq<string>)
    ensures Concat(ps + qs) == Concat(ps) + Concat(qs)
  {
    if ps == [] {
      assert ps + qs == qs;
    } else {
      assert (ps + qs)[1..] == ps[1..] + qs;
      ConcatAppend(ps[1..], qs);
    }
  }

  /** gs[0], rs[0], gs[1], rs[1], ... for the first k entries. */
  function Weave<T>(gs: seq<T>, rs: seq<T>, k: nat): (ps: seq<T>)
    requires k <= |gs| && k <= |rs|
    ensures |ps| == 2 * k
  {
    if k == 0 then [] else Weave(gs, rs, k - 1) + [gs[k - 1], rs[k - 1]]
  }

  /** Piece 2x is gs[x] and piece 2x+1 is rs[x]. */
  lemma {:induction false} WeaveAt<T>(gs: seq<T>, rs: seq<T>, k: nat, x: nat)
    requires k <= |gs| && k <= |rs| && x < k
    ensures Weave(gs, rs, k)[2 * x] == gs[x]
    ensures Weave(gs, rs, k)[2 * x + 1] == rs[x]
  {
    var ps := Weave(gs, rs, k - 1);
    var pair := [gs[k - 1], rs[k - 1]];
    assert Weave(gs, rs, k) == ps + pair;
    if x < k - 1 {
      WeaveAt(gs, rs, k - 1, x);
      assert (ps + pair)[2 * x] == ps[2 * x];
      assert (ps + pair)[2 * x + 1] == ps[2 * x + 1];
    } else {
      assert (ps + pair)[|ps|] == pair[0] && (ps + pair)[|ps| + 1] == pair[1];
    }
  }

  /** The literal gaps before the matches, in order. */
  function Gaps(s: string, ms: seq<Submatch>): (gs: seq<string>)
    requires Spans(s, ms, 0)
    ensures |gs| == |ms|
    ensures forall x :: 0 <= x < |ms| ==> gs[x] == Gap(s, ms, x)
  {
    seq(|ms|, x requires 0 <= x < |ms| => Gap(s, ms, x))
  }

  /** Gap 0, rs[0], gap 1, rs[1], ..., for the first k matches: the output of
      the first k rounds of a loop that copies each gap and then writes a
      string for the match. */
  function Interleave(s: string, ms: seq<Submatch>, k: nat, rs: seq<string>): (ps: seq<string>)
    requires Spans(s, ms, 0) && k <= |ms| == |rs|
    ensures |ps| == 2 * k
  {
    Weave(Gaps(s, ms), rs, k)
  }

  /** Piece 2x is the gap before match x and piece 2x+1 is rs[x]. */
  lemma InterleaveAt(s: string, ms: seq<Submatch>, k: nat, rs: seq<string>, x: nat)
    requires Spans(s, ms, 0) && k <= |ms| == |rs| && x < k
    ensures Interleave(s, ms, k, rs)[2 * x] == Gap(s, ms, x)
    ensures Interleave(s, ms, k, rs)[2 * x + 1] == rs[x]
  {
    WeaveAt(Gaps(s, ms), rs, k, x);
  }

  /** One more round appends one gap and one string. */
  lemma InterleaveStep(s: string, ms: seq<Submatch>, k: nat, rs: seq<string>)
    requires Spans(s, ms, 0) && k < |ms| == |rs|
    ensures Concat(Interleave(s, ms, k + 1, rs)) == Concat(Interleave(s, ms, k, rs)) + Gap(s, ms, k) + rs[k]
  {
    var g, r := Gap(s, ms, k), rs[k];
    assert Interleave(s, ms, k + 1, rs) == Interleave(s, ms, k, rs) + [g, r];
    ConcatAppend(Interleave(s, ms, k, rs), [g, r]);
    assert Concat([g, r]) == g + r by {
      assert [g, r][1..] == [r];
      assert Concat([r]) == r + Concat([]);
    }
  }

  /** The placeholders' own texts. */
  function Raws(s: string, ms: seq<Submatch>): (rs: seq<string>)
    requires AllWellFormed(s, ms)
    ensures |rs| == |ms|
    ensures forall x :: 0 <= x < |ms| ==> rs[x] == s[ms[x].start..ms[x].end]
  {
    seq(|ms|, x requires 0 <= x < |ms| => Raw(s, ms[x]))
  }

  /** The template cut into gap, placeholder, gap, ..., placeholder. */
  function TemplatePieces(s: string, ms: seq<Submatch>, k: nat): (ps: seq<string>)
    requires Spans(s, ms, 0) && k <= |ms|
    ensures |ps| == 2 * k
  {
    Interleave(s, ms, k, Raws(s, ms))
  }

  /** Cutting the template at its matches loses nothing and reorders nothing. */
  lemma TemplatePiecesPrefix(s: string, ms: seq<Submatch>, k: nat)
    requires Spans(s, ms, 0) && k <= |ms|
    ensures Concat(TemplatePieces(s, ms, k)) == s[..Cursor(ms, k, 0)]
  {
    var gs, rs := Gaps(s, ms), Raws(s, ms);
    var cs := seq(|ms| + 1, x requires 0 <= x <= |ms| => Cursor(ms, x, 0));
    var bs := seq(|ms|, x requires 0 <= x < |ms| => ms[x].start);
    forall x | 0 <= x < k
      ensures PairCut(s, gs[x], rs[x], cs[x], bs[x], cs[x + 1])
    {
      var c, a, b := Cursor(ms, x, 0), ms[x].start, ms[x].end;
      assert WellFormed(s, ms[x]) && c <= a;
      assert cs[x] == c && bs[x] == a && cs[x + 1] == Cursor(ms, x + 1, 0) == b;
      assert gs[x] == s[c..a] && rs[x] == s[a..b];
    }
    assert cs[0] == 0 && cs[k] == Cursor(ms, k, 0);
    WeaveCuts(s, gs, rs, cs, bs, k);
    assert TemplatePieces(s, ms, k) == Weave(gs, rs, k);
  }

  /** g and r are the consecutive slices s[c..a] and s[a..b]. */
  predicate PairCut(s: string, g: string, r: string, c: nat, a: nat, b: nat) {
    c <= a <= b <= |s| && g == s[c..a] && r == s[a..b]
  }

  /** Weaving consecutive slices that start at 0 gives a prefix of s. */
  lemma {:induction false} WeaveCuts(s: string, gs: seq<string>, rs: seq<string>, cs: seq<nat>, bs: seq<nat>, k: nat)
    requires k <= |gs| && k <= |rs| && k < |cs| && k <= |bs| && cs[0] == 0 && cs[k] <= |s|
    requires forall x :: 0 <= x < k ==> PairCut(s, gs[x], rs[x], cs[x], bs[x], cs[x + 1])
    ensures Concat(Weave(gs, rs, k)) == s[..cs[k]]
  {
    if k == 0 {
      assert Weave(gs, rs, k) == [];
    } else {
      assert PairCut(s, gs[k - 1], rs[k - 1], cs[k - 1], bs[k - 1], cs[k]);
      WeaveCuts(s, gs, rs, cs, bs, k - 1);
      ConcatStep(Weave(gs, rs, k - 1), gs[k - 1], rs[k - 1], s, cs[k - 1], bs[k - 1], cs[k]);
    }
  }

  /** Appending the next two slices to a prefix of s gives a longer prefix. */
  lemma ConcatStep(ps: seq<string>, g: string, r: string, s: string, c: nat, a: nat, b: nat)
    requires c <= a <= b <= |s|
    requires Concat(ps) == s[..c] && g == s[c..a] && r == s[a..b]
    ensures Concat(ps + [g, r]) == s[..b]
  {
    ConcatAppend(ps, [g, r]);
    assert Concat([g, r]) == g + r by {
      assert [g, r][1..] == [r];
      assert Concat([r]) == r + Concat([]);
    }
    SliceJoin(s, c, a, b);
  }

  lemma SliceJoin(s: string, a: nat, b: nat, c: nat)
    requires a <= b <= c <= |s|
    ensures s[..a] + s[a..b] + s[b..c] == s[..c]
  {
  }

  /** The pieces and the tail put back together give the template. */
  lemma TemplateDecomposes(s: string)
    ensures Concat(TemplatePieces(s, Scan(s), |Scan(s)|) + [Tail(s, Scan(s))]) == s
  {
    var ms := Scan(s);
    TemplatePiecesPrefix(s, ms, |ms|);
    ConcatAppend(TemplatePieces(s, ms, |ms|), [Tail(s, ms)]);
    assert Concat([Tail(s, ms)]) == Tail(s, ms);
    assert s[..Cursor(ms, |ms|, 0)] + s[Cursor(ms, |ms|, 0)..] == s;
  }
}
