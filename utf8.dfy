/** Well-formed UTF-8, as `unicode/utf8.ValidString` decides it, over text
    whose characters are bytes. `regexp.Compile` refuses a pattern that is not
    well formed (`ErrInvalidUTF8`), so the matcher's patterns compile only for
    such templates. */
module Utf8 {

  import opened TextScan

  predicate IsAscii(c: char) {
    c as int < 0x80
  }

  predicate AllAscii(t: string) {
    forall i :: 0 <= i < |t| ==> IsAscii(t[i])
  }

  /** A continuation byte, 0x80 to 0xBF. */
  predicate IsContinuation(c: char) {
    0x80 <= c as int <= 0xBF
  }

  /** The byte after lead byte `lead` of a three- or four-byte sequence: it
      is narrower after E0 and F0 (no over-long forms), ED (no surrogates)
      and F4 (nothing above U+10FFFF). */
  predicate SecondOk(lead: int, c: char) {
    if lead == 0xE0 then 0xA0 <= c as int <= 0xBF
    else if lead == 0xED then 0x80 <= c as int <= 0x9F
    else if lead == 0xF0 then 0x90 <= c as int <= 0xBF
    else if lead == 0xF4 then 0x80 <= c as int <= 0x8F
    else IsContinuation(c)
  }

  /** The length of the encoded rune t starts with, or 0 when t does not start
      with a well-formed one (`utf8.DecodeRuneInString` answering `RuneError`
      with size 1). */
  function RuneLength(t: string): (n: nat)
    requires |t| >= 1
    ensures n <= |t|
    ensures n == 1 <==> IsAscii(t[0])
  {
    var c := t[0] as int;
    if c < 0x80 then 1
    else if 0xC2 <= c <= 0xDF then
      (if |t| >= 2 && IsContinuation(t[1]) then 2 else 0)
    else if 0xE0 <= c <= 0xEF then
      (if |t| >= 3 && SecondOk(c, t[1]) && IsContinuation(t[2]) then 3 else 0)
    else if 0xF0 <= c <= 0xF4 then
      (if |t| >= 4 && SecondOk(c, t[1]) && IsContinuation(t[2]) && IsContinuation(t[3]) then 4 else 0)
    else 0
  }

  /** `utf8.ValidString(t)`: t is a sequence of well-formed runes. */
  predicate Valid(t: string)
    decreases |t|
  {
    |t| == 0 || (RuneLength(t) > 0 && Valid(t[RuneLength(t)..]))
  }

  /** ASCII text in front of anything neither mends nor breaks it. */
  lemma {:induction false} AsciiPrefix(x: string, y: string)
    requires AllAscii(x)
    ensures Valid(x + y) <==> Valid(y)
  {
    if x == [] {
      assert x + y == y;
    } else {
      assert (x + y)[0] == x[0];
      assert (x + y)[1..] == x[1..] + y;
      AsciiPrefix(x[1..], y);
    }
  }

  /** A rune cannot run on into an ASCII character, so what follows a text
      does not change the length of its first rune when it starts with one. */
  lemma RuneLengthBefore(a: string, b: string)
    requires |a| >= 1 && (b == [] || IsAscii(b[0]))
    ensures RuneLength(a + b) == RuneLength(a)
  {
    assert forall i :: 0 <= i < |a| ==> (a + b)[i] == a[i];
    assert |a| < |a + b| ==> IsAscii((a + b)[|a|]);
  }

  /** Text followed by text that starts with an ASCII character is valid
      exactly when both parts are. */
  lemma {:induction false} ValidAppend(a: string, b: string)
    requires b == [] || IsAscii(b[0])
    ensures Valid(a + b) <==> Valid(a) && Valid(b)
    decreases |a|
  {
    if a == [] {
      assert a + b == b;
    } else {
      var n := RuneLength(a);
      RuneLengthBefore(a, b);
      if n > 0 {
        assert (a + b)[n..] == a[n..] + b;
        ValidAppend(a[n..], b);
      }
    }
  }

  // ---------------------------------------------------------------------
  // Character-by-character rewriting

  /** Each character replaced by a string: the shape of `regexp.QuoteMeta`
      and of `strings.ReplaceAll(_, "/", "\\/")`. */
  function MapChars(f: char -> string, t: string): string {
    if t == [] then [] else f(t[0]) + MapChars(f, t[1..])
  }

  /** f leaves a non-ASCII character as it is and turns an ASCII one into
      non-empty ASCII text. */
  predicate KeepsNonAscii(f: char -> string) {
    forall c :: if IsAscii(c) then |f(c)| >= 1 && AllAscii(f(c)) else f(c) == [c]
  }

  lemma {:induction false} MapCharsAppend(f: char -> string, a: string, b: string)
    ensures MapChars(f, a + b) == MapChars(f, a) + MapChars(f, b)
  {
    if a == [] {
      assert a + b == b;
    } else {
      assert (a + b)[0] == a[0];
      assert (a + b)[1..] == a[1..] + b;
      MapCharsAppend(f, a[1..], b);
    }
  }

  /** The first ASCII position of t, or |t| when there is none. */
  function FirstAscii(t: string): (j: nat)
    ensures j <= |t|
    ensures forall i :: 0 <= i < j ==> !IsAscii(t[i])
    ensures j < |t| ==> IsAscii(t[j])
  {
    if t == [] || IsAscii(t[0]) then 0 else 1 + FirstAscii(t[1..])
  }

  lemma {:induction false} MapCharsNonAscii(f: char -> string, t: string)
    requires KeepsNonAscii(f)
    requires forall i :: 0 <= i < |t| ==> !IsAscii(t[i])
    ensures MapChars(f, t) == t
  {
    if t != [] {
      assert f(t[0]) == [t[0]];
      MapCharsNonAscii(f, t[1..]);
    }
  }

  /** Rewriting that keeps non-ASCII characters and writes ASCII for ASCII
      keeps the text valid, and keeps it invalid. */
  lemma {:induction false} MapCharsValid(f: char -> string, t: string)
    requires KeepsNonAscii(f)
    ensures Valid(MapChars(f, t)) <==> Valid(t)
    decreases |t|
  {
    if t == [] {
    } else if IsAscii(t[0]) {
      AsciiPrefix(f(t[0]), MapChars(f, t[1..]));
      assert t == [t[0]] + t[1..];
      AsciiPrefix([t[0]], t[1..]);
      MapCharsValid(f, t[1..]);
    } else {
      var j := FirstAscii(t);
      var r, rest := t[..j], t[j..];
      assert t == r + rest;
      MapCharsAppend(f, r, rest);
      MapCharsNonAscii(f, r);
      if rest != [] {
        assert MapChars(f, rest)[0] == f(rest[0])[0];
      }
      ValidAppend(r, MapChars(f, rest));
      ValidAppend(r, rest);
      MapCharsValid(f, rest);
    }
  }

  // ---------------------------------------------------------------------
  // Texts put together from pieces

  /** The texts of xs under f, one after the other. */
  function Joined<T>(f: T -> string, xs: seq<T>): string {
    if xs == [] then [] else f(xs[0]) + Joined(f, xs[1..])
  }

  lemma {:induction false} JoinedAppend<T>(f: T -> string, xs: seq<T>, ys: seq<T>)
    ensures Joined(f, xs + ys) == Joined(f, xs) + Joined(f, ys)
  {
    if xs == [] {
      assert xs + ys == ys;
    } else {
      assert (xs + ys)[1..] == xs[1..] + ys;
      JoinedAppend(f, xs[1..], ys);
    }
  }

  lemma JoinedSnoc<T>(f: T -> string, xs: seq<T>, y: T)
    ensures Joined(f, xs + [y]) == Joined(f, xs) + f(y)
  {
    JoinedAppend(f, xs, [y]);
    assert [y][1..] == [];
  }

  /** Non-empty ASCII text between two texts: the whole is valid exactly
      when both are. */
  lemma ValidAround(x: string, r: string, t: string)
    requires |r| >= 1 && AllAscii(r)
    ensures Valid(x + r + t) <==> Valid(x) && Valid(t)
  {
    assert x + r + t == x + (r + t);
    ValidAppend(x, r + t);
    AsciiPrefix(r, t);
  }

  /** The text of one more round of pieces followed by t. */
  lemma JoinedWeaveStep<T>(f: T -> string, gs: seq<T>, rs: seq<T>, k: nat, t: T)
    requires 0 < k <= |gs| && k <= |rs|
    ensures Joined(f, Weave(gs, rs, k) + [t])
         == Joined(f, Weave(gs, rs, k - 1) + [gs[k - 1]]) + f(rs[k - 1]) + f(t)
  {
    var w := Weave(gs, rs, k - 1) + [gs[k - 1]];
    assert Weave(gs, rs, k) == w + [rs[k - 1]];
    JoinedSnoc(f, Weave(gs, rs, k), t);
    JoinedSnoc(f, w, rs[k - 1]);
  }

  /** Every one of the first k texts is valid. */
  predicate ValidUnder<T>(f: T -> string, gs: seq<T>, k: nat)
    requires k <= |gs|
  {
    forall x :: 0 <= x < k ==> Valid(f(gs[x]))
  }

  /** Pieces g0, r0, g1, r1, ..., t where every r is non-empty ASCII text:
      the whole is valid exactly when every g and t are. */
  lemma {:induction false} ValidWeave<T>(f: T -> string, gs: seq<T>, rs: seq<T>, k: nat, t: T)
    requires k <= |gs| && k <= |rs|
    requires forall x :: 0 <= x < k ==> |f(rs[x])| >= 1 && AllAscii(f(rs[x]))
    ensures Valid(Joined(f, Weave(gs, rs, k) + [t])) <==> ValidUnder(f, gs, k) && Valid(f(t))
  {
    if k == 0 {
      JoinedSnoc(f, [], t);
      assert Weave(gs, rs, k) + [t] == [] + [t];
      assert [] + f(t) == f(t);
    } else {
      JoinedWeaveStep(f, gs, rs, k, t);
      ValidAround(Joined(f, Weave(gs, rs, k - 1) + [gs[k - 1]]), f(rs[k - 1]), f(t));
      ValidWeave(f, gs, rs, k - 1, gs[k - 1]);
      assert ValidUnder(f, gs, k) <==> ValidUnder(f, gs, k - 1) && Valid(f(gs[k - 1]));
    }
  }

  /** A string as its own text. */
  function Itself(p: string): string {
    p
  }

  lemma {:induction false} ConcatJoined(ps: seq<string>)
    ensures Concat(ps) == Joined(Itself, ps)
  {
    if ps != [] {
      ConcatJoined(ps[1..]);
    }
  }
}
