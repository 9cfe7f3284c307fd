/**
 * Brazilian-real currency text, as the calculator's input fields hold it.
 *
 * `Mask` is the keystroke mask `mascaraMoeda`: it keeps the digits of what
 * was typed, reads them as a count of centavos and renders that amount as
 * "R$ 1.234,56". `ParseBRL` is `parseBRL`, which reads such a string back
 * as a number of reais. Amounts are exact here: a count of centavos is a
 * `nat` and a parsed amount a `real`.
 */
module CurrencyText {
  import opened Wrappers

  // ------------------------------------------------------------ characters

  predicate IsDigit(c: char) { '0' <= c <= '9' }

  predicate AllDigits(s: string) { forall i :: 0 <= i < |s| ==> IsDigit(s[i]) }

  function DigitValue(c: char): (d: nat)
    requires IsDigit(c)
    ensures d < 10
  {
    c as int - '0' as int
  }

  function DigitChar(d: nat): (c: char)
    requires d < 10
    ensures IsDigit(c) && DigitValue(c) == d
  {
    "0123456789"[d]
  }

  /**
   * The characters that JavaScript's `\s` class matches: space, tab to
   * carriage return, and the Unicode space separators, line and paragraph
   * separators and the byte order mark, all of them at U+00A0 or above.
   */
  predicate IsWhitespace(c: char) {
    c == ' ' || '\t' <= c <= '\r'
    || ('\U{00A0}' <= c
        && (c == '\U{00A0}' || c == '\U{1680}' || '\U{2000}' <= c <= '\U{200A}'
            || c == '\U{2028}' || c == '\U{2029}' || c == '\U{202F}' || c == '\U{205F}'
            || c == '\U{3000}' || c == '\U{FEFF}'))
  }

  predicate NotWhitespace(c: char) { !IsWhitespace(c) }

  predicate NotDot(c: char) { c != '.' }

  predicate IsComma(c: char) { c == ',' }

  // ------------------------------------------------------ string rewriting

  /** The characters of `s` that satisfy `keep`, in order: a global `replace` of the others by ''. */
  function Filter(s: string, keep: char -> bool): (r: string)
    ensures |r| <= |s|
  {
    if s == [] then [] else (if keep(s[0]) then [s[0]] else []) + Filter(s[1..], keep)
  }

  /** `replace(/\D/g, '')`: only digits remain, and a text of digits stays as it is. */
  function KeepDigits(s: string): (r: string)
    ensures AllDigits(r)
    ensures AllDigits(s) ==> r == s
  {
    FilterSpec(s, IsDigit);
    Filter(s, IsDigit)
  }

  /** `replace(/\s/g, '')`: no whitespace remains, and a text without whitespace stays as it is. */
  function StripWhitespace(s: string): (r: string)
    ensures forall i :: 0 <= i < |r| ==> NotWhitespace(r[i])
    ensures (forall i :: 0 <= i < |s| ==> NotWhitespace(s[i])) ==> r == s
  {
    FilterSpec(s, NotWhitespace);
    Filter(s, NotWhitespace)
  }

  /** `replace(/\./g, '')`: no dot remains, and a text without dots stays as it is. */
  function RemoveDots(s: string): (r: string)
    ensures forall i :: 0 <= i < |r| ==> NotDot(r[i])
    ensures (forall i :: 0 <= i < |s| ==> NotDot(s[i])) ==> r == s
  {
    FilterSpec(s, NotDot);
    Filter(s, NotDot)
  }

  /** The number of commas in `s`. */
  function CommaCount(s: string): nat {
    |Filter(s, IsComma)|
  }

  /** `replace(from, to)` with a one-character string pattern: only the first occurrence is replaced. */
  function ReplaceFirst(s: string, from: char, to: char): (r: string)
    ensures |r| == |s|
    ensures (forall i :: 0 <= i < |s| ==> s[i] != from) ==> r == s
  {
    if s == [] then []
    else if s[0] == from then [to] + s[1..]
    else [s[0]] + ReplaceFirst(s[1..], from, to)
  }

  /**
   * `replace('R$', '')`: the first occurrence of the currency marker is
   * removed. The text loses two characters or none, and one without a '$'
   * stays as it is.
   */
  function RemoveFirstMarker(s: string): (r: string)
    ensures |r| == |s| || |r| + 2 == |s|
    ensures (forall i :: 0 <= i < |s| ==> s[i] != '$') ==> r == s
  {
    if |s| < 2 then s
    else if s[..2] == "R$" then assert s[1] == s[..2][1]; s[2..]
    else [s[0]] + RemoveFirstMarker(s[1..])
  }

  // --------------------------------------------------------------- numbers

  /** The number a digit string denotes, as `Number(v)` reads it; the empty string denotes 0. */
  function ValueOf(d: string): nat
    requires AllDigits(d)
  {
    if d == [] then 0 else 10 * ValueOf(d[..|d| - 1]) + DigitValue(d[|d| - 1])
  }

  function Pow10(k: nat): (p: nat)
    ensures p >= 1
  {
    if k == 0 then 1 else 10 * Pow10(k - 1)
  }

  /** A digit string without leading zeros ("0" itself is allowed). */
  predicate Canonical(d: string) {
    |d| >= 1 && (d[0] == '0' ==> |d| == 1)
  }

  /** The decimal digits of `n`, as `toFixed` writes the whole part. */
  function Decimal(n: nat): (r: string)
    ensures AllDigits(r) && Canonical(r) && ValueOf(r) == n
  {
    if n < 10 then [DigitChar(n)]
    else
      var r := Decimal(n / 10) + [DigitChar(n % 10)];
      assert r[..|r| - 1] == Decimal(n / 10);
      r
  }

  // ------------------------------------------------------------------ mask

  /** The number of centavos the digits of `s` denote. */
  function CentsOf(s: string): nat {
    ValueOf(KeepDigits(s))
  }

  /**
   * `(v / 100).toFixed(2)` for an exact count of centavos `v`: the whole
   * reais without leading zeros, '.', two digits of centavos; the digits
   * without the point denote `v`.
   */
  function FixedTwo(cents: nat): (r: string)
    ensures |r| >= 4 && r[|r| - 3] == '.'
    ensures AllDigits(r[..|r| - 3]) && Canonical(r[..|r| - 3]) && AllDigits(r[|r| - 2..])
    ensures AllDigits(r[..|r| - 3] + r[|r| - 2..]) && ValueOf(r[..|r| - 3] + r[|r| - 2..]) == cents
  {
    var whole, digits := Decimal(cents / 100), [DigitChar(cents % 100 / 10), DigitChar(cents % 10)];
    PointSplit(whole, digits);
    FixedTwoDigitsValue(cents);
    whole + "." + digits
  }

  /** A point followed by two characters splits off as the last three. */
  lemma PointSplit(whole: string, digits: string)
    requires |digits| == 2
    ensures var r := whole + "." + digits;
      r[..|r| - 3] == whole && r[|r| - 3] == '.' && r[|r| - 2..] == digits
  {
    var r := whole + "." + digits;
    assert r[..|r| - 3] == whole;
    assert r[|r| - 2..] == digits;
  }

  /** The length of the run of digits at the front of `s`. */
  function DigitRun(s: string): (k: nat)
    ensures k <= |s| && DigitsUpTo(s, k) && (k < |s| ==> !IsDigit(s[k]))
  {
    if s != [] && IsDigit(s[0]) then 1 + DigitRun(s[1..]) else 0
  }

  /** The first `k` characters of `s` are digits. */
  predicate DigitsUpTo(s: string, k: nat)
    requires k <= |s|
  {
    forall i :: 0 <= i < k ==> IsDigit(s[i])
  }

  /** `s` starts with `k` groups of three digits and then a non-digit or the end: `(\d{3}){k}(?!\d)`. */
  predicate GroupsThenStop(s: string, k: nat) {
    3 * k <= |s| && DigitsUpTo(s, 3 * k) && (3 * k == |s| || !IsDigit(s[3 * k]))
  }

  /** Whether the lookahead `(?=(\d{3})+(?!\d))` succeeds at the front of `s`. */
  predicate ThousandsAhead(s: string) {
    DigitRun(s) > 0 && DigitRun(s) % 3 == 0
  }

  /**
   * `replace(/(\d)(?=(\d{3})+(?!\d))/g, '$1.')`: a dot goes after every digit
   * that the lookahead accepts. Each match consumes only that digit, so every
   * position is considered. Characters are only inserted, never removed.
   */
  function InsertThousandsDots(s: string): (r: string)
    ensures |r| >= |s|
  {
    if s == [] then []
    else [s[0]] + (if IsDigit(s[0]) && ThousandsAhead(s[1..]) then "." else "") + InsertThousandsDots(s[1..])
  }

  /**
   * `mascaraMoeda`: the text the field holds after a keystroke that left `s`
   * in it. Whatever was typed, it is "R$ ", a whole part whose dots stand
   * before each group of three digits from the right, exactly one comma and
   * exactly two digits after it; and its digits denote the same number of
   * centavos as the digits that were typed.
   */
  function Mask(s: string): (r: string)
    ensures IsMaskedAmount(r) && CommaCount(r) == 1
    ensures CentsOf(r) == CentsOf(s)
  {
    var n := CentsOf(s);
    MaskedCents(n);
    "R$ " + InsertThousandsDots(ReplaceFirst(FixedTwo(n), '.', ','))
  }

  /** An input field whose text the mask rewrites. */
  class InputField {
    var value: string

    constructor (text: string)
      ensures value == text
    {
      value := text;
    }
  }

  /** `mascaraMoeda(input)`: rewrites the field's text step by step, as the listener on every keystroke does. */
  method MascaraMoeda(input: InputField)
    modifies input
    ensures input.value == Mask(old(input.value))
    ensures IsMaskedAmount(input.value) && CentsOf(input.value) == CentsOf(old(input.value))
  {
    var v := KeepDigits(input.value);
    var fixed := FixedTwo(ValueOf(v));
    fixed := ReplaceFirst(fixed, '.', ',');
    fixed := InsertThousandsDots(fixed);
    input.value := "R$ " + fixed;
  }

  // ----------------------------------------------------------------- parse

  /** The longest prefix of `s` made of digits. */
  function LeadingDigits(s: string): (r: string)
    ensures |r| <= |s| && AllDigits(r) && r == s[..|r|]
  {
    var k := DigitRun(s);
    assert forall i :: 0 <= i < k ==> s[..k][i] == s[i];
    s[..k]
  }

  /** The value of the digits after a decimal point. */
  function FractionValue(f: string): real
    requires AllDigits(f)
  {
    if f == [] then 0.0 else (DigitValue(f[0]) as real + FractionValue(f[1..])) / 10.0
  }

  /** The digits after a leading decimal point, if `rest` starts with one. */
  function FractionDigits(rest: string): (f: string)
    ensures AllDigits(f)
  {
    if |rest| > 0 && rest[0] == '.' then LeadingDigits(rest[1..]) else ""
  }

  /**
   * `parseFloat` without a sign: digits, then an optional '.' and digits; at
   * least one digit.
   */
  function ParseUnsigned(t: string): Option<real> {
    var whole := LeadingDigits(t);
    DecimalValue(whole, FractionDigits(t[|whole|..]))
  }

  /** `t` starts with a digit, or with a decimal point and a digit. */
  predicate StartsNumber(t: string) {
    (|t| > 0 && IsDigit(t[0])) || (|t| > 1 && t[0] == '.' && IsDigit(t[1]))
  }

  /** The number a whole part and a fraction part denote; `NaN` when both are empty. */
  function DecimalValue(whole: string, frac: string): Option<real>
    requires AllDigits(whole) && AllDigits(frac)
  {
    if whole == [] && frac == [] then None
    else Some(ValueOf(whole) as real + FractionValue(frac))
  }

  /**
   * `parseFloat` on a decimal literal: an optional sign and an unsigned
   * decimal; the longest such prefix is read and the rest ignored. No digit
   * at all gives `NaN`, here `None`.
   */
  function ParseFloat(t: string): Option<real> {
    var v := ParseUnsigned(t[SignLength(t)..]);
    if |t| > 0 && t[0] == '-' && v.Some? then Some(-v.value) else v
  }

  /** One for a leading '-' or '+', otherwise zero. */
  function SignLength(t: string): (k: nat)
    ensures k <= |t|
  {
    if |t| > 0 && (t[0] == '-' || t[0] == '+') then 1 else 0
  }

  /** `parseBRL`: an empty value is `NaN`; otherwise whitespace, the marker, the dots and the first comma are rewritten before `parseFloat`. */
  function ParseBRL(valor: string): (r: Option<real>)
    ensures valor == "" ==> r == None
  {
    if valor == "" then None
    else ParseFloat(ReplaceFirst(RemoveDots(RemoveFirstMarker(StripWhitespace(valor))), ',', '.'))
  }

  /** An unsigned decimal is read exactly when the text starts with a digit, or with a point and a digit. */
  lemma ParseUnsignedReadsNumber(t: string)
    ensures ParseUnsigned(t).Some? <==> StartsNumber(t)
  {
    var whole := LeadingDigits(t);
    if whole == [] {
      assert t[|whole|..] == t;
    }
  }

  /** `parseFloat` reads a number exactly when one starts after the optional sign; otherwise it is `NaN`. */
  lemma ParseFloatReadsNumber(t: string)
    ensures ParseFloat(t).Some? <==> StartsNumber(t[SignLength(t)..])
  {
    ParseUnsignedReadsNumber(t[SignLength(t)..]);
  }

  /** The digits after a decimal point are worth less than one. */
  lemma {:induction false} FractionValueBelowOne(f: string)
    requires AllDigits(f)
    ensures 0.0 <= FractionValue(f) < 1.0
  {
    if f != [] {
      FractionValueBelowOne(f[1..]);
    }
  }

  /** `parseFloat` gives a value of the sign written in front: at most zero after '-', at least zero otherwise. */
  lemma ParseFloatSign(t: string)
    ensures ParseFloat(t).Some? && |t| > 0 && t[0] == '-' ==> ParseFloat(t).value <= 0.0
    ensures ParseFloat(t).Some? && !(|t| > 0 && t[0] == '-') ==> ParseFloat(t).value >= 0.0
  {
    var u := t[SignLength(t)..];
    FractionValueBelowOne(FractionDigits(u[|LeadingDigits(u)|..]));
  }

  // ----------------------------------------------------- shape of a masked amount

  /**
   * The whole part of a masked amount: one to three digits, then groups of
   * a dot and three digits, counted from the right.
   */
  predicate Grouped(p: string)
    decreases |p|
  {
    if |p| <= 3 then 1 <= |p| && AllDigits(p)
    else 5 <= |p| && p[|p| - 4] == '.' && AllDigits(p[|p| - 3..]) && Grouped(p[..|p| - 4])
  }

  /** "R$ ", a grouped whole part without leading zeros, a comma and exactly two digits. */
  predicate IsMaskedAmount(m: string) {
    |m| >= 7 && m[..3] == "R$ " && m[|m| - 3] == ',' && AllDigits(m[|m| - 2..])
    && Grouped(m[3..|m| - 3]) && Canonical(RemoveDots(m[3..|m| - 3]))
  }

  // ------------------------------------------------------- lemmas: rewriting

  lemma {:induction false} FilterConcat(a: string, b: string, keep: char -> bool)
    ensures Filter(a + b, keep) == Filter(a, keep) + Filter(b, keep)
  {
    if a == [] {
      assert a + b == b;
    } else {
      var head := if keep(a[0]) then [a[0]] else [];
      assert (a + b)[0] == a[0] && (a + b)[1..] == a[1..] + b;
      assert Filter(a + b, keep) == head + Filter(a[1..] + b, keep);
      FilterConcat(a[1..], b, keep);
      assert Filter(a, keep) == head + Filter(a[1..], keep);
    }
  }

  /** Everything a filter keeps satisfies its predicate. */
  lemma {:induction false} FilterOnlyKept(s: string, keep: char -> bool)
    ensures forall i :: 0 <= i < |Filter(s, keep)| ==> keep(Filter(s, keep)[i])
  {
    if s != [] {
      FilterOnlyKept(s[1..], keep);
    }
  }

  /** A filter keeps only what satisfies its predicate, and leaves a text all of whose characters do as it is. */
  lemma FilterSpec(s: string, keep: char -> bool)
    ensures forall i :: 0 <= i < |Filter(s, keep)| ==> keep(Filter(s, keep)[i])
    ensures (forall i :: 0 <= i < |s| ==> keep(s[i])) ==> Filter(s, keep) == s
  {
    FilterOnlyKept(s, keep);
    if forall i :: 0 <= i < |s| ==> keep(s[i]) {
      FilterKeepsAll(s, keep);
    }
  }

  /** Only the digits of each part survive: the filter distributes over concatenation. */
  lemma KeepDigitsConcat(a: string, b: string)
    ensures KeepDigits(a + b) == KeepDigits(a) + KeepDigits(b)
  {
    FilterConcat(a, b, IsDigit);
  }

  /** A single character survives exactly when it is a digit. */
  lemma KeepDigitsChar(c: char)
    ensures KeepDigits([c]) == (if IsDigit(c) then [c] else [])
  {
    assert [c][1..] == [];
  }

  lemma {:induction false} FilterKeepsAll(s: string, keep: char -> bool)
    requires forall i :: 0 <= i < |s| ==> keep(s[i])
    ensures Filter(s, keep) == s
  {
    if s != [] {
      FilterKeepsAll(s[1..], keep);
    }
  }

  lemma {:induction false} FilterDropsAll(s: string, keep: char -> bool)
    requires forall i :: 0 <= i < |s| ==> !keep(s[i])
    ensures Filter(s, keep) == []
  {
    if s != [] {
      FilterDropsAll(s[1..], keep);
    }
  }

  /** Replacing the first `from` touches the first one and nothing before or after it. */
  lemma {:induction false} ReplaceFirstAt(a: string, b: string, from: char, to: char)
    requires forall i :: 0 <= i < |a| ==> a[i] != from
    ensures ReplaceFirst(a + [from] + b, from, to) == a + [to] + b
  {
    if a != [] {
      assert (a + [from] + b)[1..] == a[1..] + [from] + b;
      ReplaceFirstAt(a[1..], b, from, to);
    }
  }

  /** With no '$' before it, the first marker is the one removed, and nothing else changes. */
  lemma {:induction false} RemoveFirstMarkerAt(a: string, b: string)
    requires forall i :: 0 <= i < |a| ==> a[i] != '$'
    ensures RemoveFirstMarker(a + "R$" + b) == a + b
  {
    var t := a + "R$" + b;
    if a == [] {
      assert t[..2] == "R$" && t[2..] == b;
    } else {
      assert t[1] != '$';
      assert t[1..] == a[1..] + "R$" + b;
      RemoveFirstMarkerAt(a[1..], b);
    }
  }

  // ---------------------------------------------------------- lemmas: numbers

  lemma {:induction false} ValueOfConcat(a: string, b: string)
    requires AllDigits(a) && AllDigits(b)
    ensures AllDigits(a + b) && ValueOf(a + b) == ValueOf(a) * Pow10(|b|) + ValueOf(b)
  {
    if b != [] {
      var b' := b[..|b| - 1];
      ValueOfConcat(a, b');
      var x, p, y, last := ValueOf(a), Pow10(|b'|), ValueOf(b'), DigitValue(b[|b| - 1]);
      calc {
        ValueOf(a + b);
        == { assert (a + b)[..|a + b| - 1] == a + b' && (a + b)[|a + b| - 1] == b[|b| - 1]; }
        10 * ValueOf(a + b') + last;
        10 * (x * p + y) + last;
        == { ShiftDigit(x, p, y, last); }
        x * (10 * p) + (10 * y + last);
        x * Pow10(|b|) + ValueOf(b);
      }
    } else {
      assert a + b == a;
    }
  }

  lemma ShiftDigit(x: nat, p: nat, y: nat, last: nat)
    ensures 10 * (x * p + y) + last == x * (10 * p) + (10 * y + last)
  {
  }

  // ------------------------------------------------------ lemmas: lookahead

  /** A digit run ends exactly where the digits stop. */
  lemma {:induction false} DigitRunIs(s: string, j: nat)
    requires j <= |s| && DigitsUpTo(s, j) && (j == |s| || !IsDigit(s[j]))
    ensures DigitRun(s) == j
  {
    if j > 0 {
      assert IsDigit(s[0]);
      assert forall i :: 0 <= i < j - 1 ==> s[1..][i] == s[i + 1];
      DigitRunIs(s[1..], j - 1);
    }
  }

  /** A string of digits is one digit run. */
  lemma DigitRunAll(s: string)
    requires AllDigits(s)
    ensures DigitRun(s) == |s|
  {
    DigitRunIs(s, |s|);
  }

  /** Adding a multiple of three does not change a remainder modulo three. */
  lemma ModThreeShift(x: nat, y: nat)
    requires y % 3 == 0
    ensures (x + y) % 3 == x % 3
  {
    assert y == 3 * (y / 3);
    assert x + y == 3 * (x / 3 + y / 3) + x % 3;
  }

  /**
   * The positional reading of the thousands lookahead is the regular
   * expression's: some positive number of digit triples followed by a
   * non-digit or the end.
   */
  lemma LookaheadMatchesThousandsAhead(s: string)
    ensures (exists k: nat :: 1 <= k && GroupsThenStop(s, k)) <==> ThousandsAhead(s)
  {
    if ThousandsAhead(s) {
      assert 3 * (DigitRun(s) / 3) == DigitRun(s);
      assert GroupsThenStop(s, DigitRun(s) / 3);
    }
    if k: nat :| 1 <= k && GroupsThenStop(s, k) {
      DigitRunIs(s, 3 * k);
    }
  }

  // ----------------------------------------------- lemmas: the dot insertion

  /** The replacement inserts only dots: dropping the dots of its output gives the input without its dots. */
  lemma {:induction false} InsertDotsOnlyDots(s: string)
    ensures Filter(InsertThousandsDots(s), NotDot) == Filter(s, NotDot)
  {
    if s != [] {
      var dot := if IsDigit(s[0]) && ThousandsAhead(s[1..]) then "." else "";
      var rest := InsertThousandsDots(s[1..]);
      assert s == [s[0]] + s[1..];
      assert InsertThousandsDots(s) == [s[0]] + dot + rest;
      InsertDotsOnlyDots(s[1..]);
      FilterConcat([s[0]] + dot, rest, NotDot);
      FilterConcat([s[0]], dot, NotDot);
      FilterConcat([s[0]], s[1..], NotDot);
    }
  }

  /** A string of at most three characters has no digit followed by a group of three. */
  lemma {:induction false} InsertDotsShort(s: string)
    requires |s| <= 3
    ensures InsertThousandsDots(s) == s
  {
    if s != [] {
      InsertDotsShort(s[1..]);
    }
  }

  /** Dots inserted into a block of digits do not depend on what follows the block's first non-digit. */
  lemma {:induction false} InsertDotsDigitsThen(d: string, t: string)
    requires AllDigits(d) && (t == [] || !IsDigit(t[0]))
    ensures InsertThousandsDots(d + t) == InsertThousandsDots(d) + InsertThousandsDots(t)
  {
    if d != [] {
      var dot := if ThousandsAhead(d[1..]) then "." else "";
      assert (d + t)[1..] == d[1..] + t;
      assert ThousandsAhead(d[1..] + t) == ThousandsAhead(d[1..]) by {
        DigitRunIs(d[1..] + t, |d| - 1);
        DigitRunAll(d[1..]);
      }
      calc {
        InsertThousandsDots(d + t);
        [d[0]] + dot + InsertThousandsDots(d[1..] + t);
        == { InsertDotsDigitsThen(d[1..], t); }
        [d[0]] + dot + (InsertThousandsDots(d[1..]) + InsertThousandsDots(t));
        ([d[0]] + dot + InsertThousandsDots(d[1..])) + InsertThousandsDots(t);
        InsertThousandsDots(d) + InsertThousandsDots(t);
      }
    } else {
      assert d + t == t;
    }
  }

  /** Inside a block of digits, a dot separates the last triples from the rest. */
  lemma {:induction false} InsertDotsSplit(a: string, b: string)
    requires AllDigits(a) && AllDigits(b) && |a| >= 1 && |b| >= 1 && |b| % 3 == 0
    ensures InsertThousandsDots(a + b) == InsertThousandsDots(a) + "." + InsertThousandsDots(b)
  {
    assert (a + b)[1..] == a[1..] + b;
    if |a| == 1 {
      assert a[1..] + b == b;
      assert ThousandsAhead(b) by {
        DigitRunAll(b);
      }
      calc {
        InsertThousandsDots(a + b);
        [a[0]] + "." + InsertThousandsDots(b);
        { assert InsertThousandsDots(a) == [a[0]]; }
        InsertThousandsDots(a) + "." + InsertThousandsDots(b);
      }
    } else {
      var dot := if ThousandsAhead(a[1..]) then "." else "";
      ThousandsAheadAcrossTriples(a[1..], b);
      calc {
        InsertThousandsDots(a + b);
        [a[0]] + dot + InsertThousandsDots(a[1..] + b);
        == { InsertDotsSplit(a[1..], b); }
        [a[0]] + dot + (InsertThousandsDots(a[1..]) + "." + InsertThousandsDots(b));
        ([a[0]] + dot + InsertThousandsDots(a[1..])) + "." + InsertThousandsDots(b);
        InsertThousandsDots(a) + "." + InsertThousandsDots(b);
      }
    }
  }

  /** Appending whole triples of digits to a digit block does not change whether the lookahead succeeds. */
  lemma ThousandsAheadAcrossTriples(x: string, b: string)
    requires AllDigits(x) && |x| >= 1 && AllDigits(b) && |b| % 3 == 0
    ensures ThousandsAhead(x + b) == ThousandsAhead(x)
  {
    DigitRunAll(x + b);
    DigitRunAll(x);
    ModThreeShift(|x|, |b|);
  }

  /** Dotting a block of digits adds only dots: removing them, or keeping the digits, gives the block back. */
  lemma InsertDotsKeepsDigits(d: string)
    requires AllDigits(d)
    ensures DigitsAndDots(InsertThousandsDots(d))
    ensures KeepDigits(InsertThousandsDots(d)) == d
    ensures RemoveDots(InsertThousandsDots(d)) == d
  {
    InsertDotsDigitsAndDots(d);
    InsertDotsFilter(d, IsDigit);
    InsertDotsFilter(d, NotDot);
  }

  /** Dotting a block of digits writes only digits and dots. */
  lemma {:induction false} InsertDotsDigitsAndDots(d: string)
    requires AllDigits(d)
    ensures DigitsAndDots(InsertThousandsDots(d))
  {
    if d != [] {
      InsertDotsDigitsAndDots(d[1..]);
    }
  }

  /** A filter that keeps digits and drops dots undoes the dotting of a block of digits. */
  lemma {:induction false} InsertDotsFilter(d: string, keep: char -> bool)
    requires AllDigits(d) && !keep('.') && forall i :: 0 <= i < |d| ==> keep(d[i])
    ensures Filter(InsertThousandsDots(d), keep) == d
  {
    if d != [] {
      var dot := if ThousandsAhead(d[1..]) then "." else "";
      var rest := InsertThousandsDots(d[1..]);
      calc {
        Filter(InsertThousandsDots(d), keep);
        Filter([d[0]] + dot + rest, keep);
        == { FilterConcat([d[0]] + dot, rest, keep); }
        Filter([d[0]] + dot, keep) + Filter(rest, keep);
        == { FilterDigitThenDot(d[0], dot, keep); }
        [d[0]] + Filter(rest, keep);
        == { InsertDotsFilter(d[1..], keep); }
        [d[0]] + d[1..];
        d;
      }
    }
  }

  /** A kept character followed by at most a dropped dot filters to that character. */
  lemma FilterDigitThenDot(c: char, dot: string, keep: char -> bool)
    requires keep(c) && !keep('.') && (dot == "" || dot == ".")
    ensures Filter([c] + dot, keep) == [c]
  {
    assert ([c] + dot)[1..] == dot;
  }

  /** The dotted form of a digit string is grouped in threes from the right. */
  lemma {:induction false} InsertDotsGrouped(d: string)
    requires AllDigits(d) && |d| >= 1
    ensures Grouped(InsertThousandsDots(d))
    decreases |d|
  {
    if |d| <= 3 {
      InsertDotsShort(d);
    } else {
      var a, b := d[..|d| - 3], d[|d| - 3..];
      assert InsertThousandsDots(d) == InsertThousandsDots(a) + "." + b by {
        assert d == a + b;
        InsertDotsSplit(a, b);
        InsertDotsShort(b);
      }
      InsertDotsGrouped(a);
      GroupedAppend(InsertThousandsDots(a), b);
    }
  }

  /** A grouped whole part followed by a dot and three digits is grouped. */
  lemma GroupedAppend(p: string, b: string)
    requires Grouped(p) && |p| >= 1 && AllDigits(b) && |b| == 3
    ensures Grouped(p + "." + b)
  {
    var q := p + "." + b;
    assert q[..|q| - 4] == p;
    assert q[|q| - 3..] == b;
    assert q[|q| - 4] == '.';
  }

  // ------------------------------------------------------ lemmas: the mask

  /** The mask's output laid out: "R$ ", the dotted whole reais, ',', the two centavo digits. */
  lemma MaskLayout(s: string)
    ensures var n := CentsOf(s);
      Mask(s) == "R$ " + InsertThousandsDots(Decimal(n / 100)) + ","
                 + [DigitChar(n % 100 / 10), DigitChar(n % 10)]
  {
    FixedTwoLayout(CentsOf(s));
  }

  /** Replacing the point of `toFixed(2)`'s text by a comma and inserting the dots touches the whole part only. */
  lemma FixedTwoLayout(n: nat)
    ensures "R$ " + InsertThousandsDots(ReplaceFirst(FixedTwo(n), '.', ','))
            == "R$ " + InsertThousandsDots(Decimal(n / 100)) + "," + [DigitChar(n % 100 / 10), DigitChar(n % 10)]
  {
    var whole, cents := Decimal(n / 100), [DigitChar(n % 100 / 10), DigitChar(n % 10)];
    calc {
      InsertThousandsDots(ReplaceFirst(FixedTwo(n), '.', ','));
      InsertThousandsDots(ReplaceFirst(whole + "." + cents, '.', ','));
      == { ReplaceFirstAt(whole, cents, '.', ','); }
      InsertThousandsDots(whole + [','] + cents);
      == { assert whole + [','] + cents == whole + ([','] + cents); }
      InsertThousandsDots(whole + ([','] + cents));
      == { InsertDotsDigitsThen(whole, [','] + cents); }
      InsertThousandsDots(whole) + InsertThousandsDots([','] + cents);
      == { InsertDotsShort([','] + cents); }
      InsertThousandsDots(whole) + ([','] + cents);
    }
    assert "R$ " + (InsertThousandsDots(whole) + ([','] + cents)) == "R$ " + InsertThousandsDots(whole) + "," + cents;
  }

  /** The mask's rendering of `n` centavos is a masked amount with one comma whose digits denote `n`. */
  lemma MaskedCents(n: nat)
    ensures var m := "R$ " + InsertThousandsDots(ReplaceFirst(FixedTwo(n), '.', ','));
      IsMaskedAmount(m) && CommaCount(m) == 1 && CentsOf(m) == n
  {
    FixedTwoLayout(n);
    LayoutCents(n);
  }

  /** The layout of `n` centavos is a masked amount with one comma whose digits denote `n`. */
  lemma LayoutCents(n: nat)
    ensures var m := "R$ " + InsertThousandsDots(Decimal(n / 100)) + "," + [DigitChar(n % 100 / 10), DigitChar(n % 10)];
      IsMaskedAmount(m) && CommaCount(m) == 1 && CentsOf(m) == n
  {
    LayoutIsMaskedAmount(Decimal(n / 100), [DigitChar(n % 100 / 10), DigitChar(n % 10)]);
    FixedTwoDigitsValue(n);
  }

  /** The two centavo digits of the mask read back as the remainder modulo 100. */
  lemma CentsDigits(n: nat)
    ensures ValueOf([DigitChar(n % 100 / 10), DigitChar(n % 10)]) == n % 100
  {
    var c := [DigitChar(n % 100 / 10), DigitChar(n % 10)];
    assert c[..1][..0] == [];
    assert ValueOf(c[..1]) == n % 100 / 10;
  }

  /** What the mask's characters are, apart from "R$ " and the comma. */
  predicate DigitsAndDots(g: string) {
    forall i :: 0 <= i < |g| ==> IsDigit(g[i]) || g[i] == '.'
  }

  lemma MaskedTextDigits(g: string, cents: string)
    requires DigitsAndDots(g) && AllDigits(cents)
    ensures KeepDigits("R$ " + g + "," + cents) == KeepDigits(g) + cents
  {
    assert Filter(cents, IsDigit) == cents by {
      FilterKeepsAll(cents, IsDigit);
    }
    assert Filter("R$ ", IsDigit) == [];
    assert Filter(",", IsDigit) == [];
    FilterConcat("R$ " + g + ",", cents, IsDigit);
    FilterConcat("R$ " + g, ",", IsDigit);
    FilterConcat("R$ ", g, IsDigit);
  }

  lemma MaskedTextCommas(g: string, cents: string)
    requires DigitsAndDots(g) && AllDigits(cents)
    ensures CommaCount("R$ " + g + "," + cents) == 1
  {
    assert Filter(g, IsComma) == [] by {
      FilterDropsAll(g, IsComma);
    }
    assert Filter(cents, IsComma) == [] by {
      FilterDropsAll(cents, IsComma);
    }
    assert Filter("R$ ", IsComma) == [];
    FilterConcat("R$ " + g + ",", cents, IsComma);
    FilterConcat("R$ " + g, ",", IsComma);
    FilterConcat("R$ ", g, IsComma);
  }

  lemma MaskedTextWhitespace(g: string, cents: string)
    requires DigitsAndDots(g) && AllDigits(cents)
    ensures StripWhitespace("R$ " + g + "," + cents) == "R$" + (g + "," + cents)
  {
    calc {
      Filter("R$ " + g + "," + cents, NotWhitespace);
      == { FilterConcat("R$ " + g + ",", cents, NotWhitespace); }
      Filter("R$ " + g + ",", NotWhitespace) + Filter(cents, NotWhitespace);
      == { FilterConcat("R$ " + g, ",", NotWhitespace); }
      Filter("R$ " + g, NotWhitespace) + Filter(",", NotWhitespace) + Filter(cents, NotWhitespace);
      == { FilterConcat("R$ ", g, NotWhitespace); }
      Filter("R$ ", NotWhitespace) + Filter(g, NotWhitespace) + Filter(",", NotWhitespace)
        + Filter(cents, NotWhitespace);
      == { NoWhitespaceInAmount(g, cents); }
      "R$" + g + "," + cents;
    }
    assert "R$" + g + "," + cents == "R$" + (g + "," + cents);
  }

  /** Filtering out whitespace keeps digits and dots and drops the space of the marker. */
  lemma NoWhitespaceInAmount(g: string, cents: string)
    requires DigitsAndDots(g) && AllDigits(cents)
    ensures Filter("R$ ", NotWhitespace) == "R$" && Filter(",", NotWhitespace) == ","
    ensures Filter(g, NotWhitespace) == g && Filter(cents, NotWhitespace) == cents
  {
    assert Filter(g, NotWhitespace) == g by {
      forall i | 0 <= i < |g| ensures NotWhitespace(g[i]) {
        assert IsDigit(g[i]) || g[i] == '.';
      }
      FilterKeepsAll(g, NotWhitespace);
    }
    assert Filter(cents, NotWhitespace) == cents by {
      forall i | 0 <= i < |cents| ensures NotWhitespace(cents[i]) {
        assert IsDigit(cents[i]);
      }
      FilterKeepsAll(cents, NotWhitespace);
    }
    assert Filter("R$ ", NotWhitespace) == "R$";
    assert Filter(",", NotWhitespace) == ",";
  }

  lemma MaskedTextDots(d: string, g: string, cents: string)
    requires RemoveDots(g) == d && AllDigits(cents)
    ensures RemoveDots(g + "," + cents) == d + [','] + cents
  {
    assert Filter(cents, NotDot) == cents by {
      FilterKeepsAll(cents, NotDot);
    }
    assert Filter(",", NotDot) == ",";
    FilterConcat(g + ",", cents, NotDot);
    FilterConcat(g, ",", NotDot);
  }

  /** The digits `toFixed(2)` writes for an amount of centavos denote that amount. */
  lemma FixedTwoDigitsValue(n: nat)
    ensures ValueOf(Decimal(n / 100) + [DigitChar(n % 100 / 10), DigitChar(n % 10)]) == n
  {
    var whole, cents := Decimal(n / 100), [DigitChar(n % 100 / 10), DigitChar(n % 10)];
    ValueOfConcat(whole, cents);
    CentsDigits(n);
    assert Pow10(2) == 100;
    assert ValueOf(whole + cents) == n / 100 * 100 + n % 100;
  }

  /** "R$ ", a dotted canonical whole part, ',' and two digits make a masked amount of the digits' centavos. */
  lemma LayoutIsMaskedAmount(whole: string, cents: string)
    requires AllDigits(whole) && Canonical(whole) && AllDigits(cents) && |cents| == 2
    ensures var m := "R$ " + InsertThousandsDots(whole) + "," + cents;
      IsMaskedAmount(m) && CommaCount(m) == 1 && KeepDigits(m) == whole + cents
  {
    var g := InsertThousandsDots(whole);
    var m := "R$ " + g + "," + cents;
    InsertDotsKeepsDigits(whole);
    InsertDotsGrouped(whole);
    assert m[..3] == "R$ ";
    assert m[3..|m| - 3] == g;
    assert m[|m| - 3] == ',';
    assert m[|m| - 2..] == cents;
    MaskedTextDigits(g, cents);
    MaskedTextCommas(g, cents);
  }

  /** The mask reads only the typed digits: inputs with the same digits are masked alike. */
  lemma MaskDependsOnlyOnDigits(s1: string, s2: string)
    requires KeepDigits(s1) == KeepDigits(s2)
    ensures Mask(s1) == Mask(s2)
  {
  }

  /** Masking a masked field again leaves it as it is, so the mask can run on every keystroke. */
  lemma MaskIdempotent(s: string)
    ensures Mask(Mask(s)) == Mask(s)
  {
  }

  /** A field with no digits in it shows zero reais. */
  lemma MaskWithoutDigits(s: string)
    requires KeepDigits(s) == []
    ensures Mask(s) == "R$ 0,00"
  {
    var n := CentsOf(s);
    assert n == 0;
    calc {
      Mask(s);
      == { MaskLayout(s); }
      "R$ " + InsertThousandsDots(Decimal(n / 100)) + "," + [DigitChar(n % 100 / 10), DigitChar(n % 10)];
      "R$ " + InsertThousandsDots(Decimal(0)) + "," + [DigitChar(0), DigitChar(0)];
      == { assert Decimal(0) == "0"; InsertDotsShort("0"); }
      "R$ " + "0" + "," + [DigitChar(0), DigitChar(0)];
      == { assert DigitChar(0) == '0'; }
      "R$ 0,00";
    }
  }

  // ------------------------------------------------------ lemmas: the parse

  /** `parseFloat` reads whole reais, a point and two centavo digits as their exact value. */
  lemma ParseFloatFixedTwo(whole: string, cents: string)
    requires AllDigits(whole) && |whole| >= 1 && AllDigits(cents) && |cents| == 2
    ensures ParseFloat(whole + ['.'] + cents) == Some(ValueOf(whole) as real + ValueOf(cents) as real / 100.0)
  {
    var t := whole + ['.'] + cents;
    assert ParseFloat(t) == ParseUnsigned(t) by {
      assert t[0] == whole[0];
      ParseFloatUnsigned(t);
    }
    FixedTwoUnsigned(whole, cents);
  }

  lemma FixedTwoUnsigned(whole: string, cents: string)
    requires AllDigits(whole) && |whole| >= 1 && AllDigits(cents) && |cents| == 2
    ensures ParseUnsigned(whole + ['.'] + cents) == Some(ValueOf(whole) as real + ValueOf(cents) as real / 100.0)
  {
    PointThenDigits(whole, cents);
    DecimalFixedTwo(whole, cents);
  }

  lemma DecimalFixedTwo(whole: string, cents: string)
    requires AllDigits(whole) && |whole| >= 1 && AllDigits(cents) && |cents| == 2
    ensures DecimalValue(whole, cents) == Some(ValueOf(whole) as real + ValueOf(cents) as real / 100.0)
  {
    TwoFractionDigits(cents);
  }

  /** Digits, a decimal point and digits split into the whole part and the fraction. */
  lemma PointThenDigits(whole: string, frac: string)
    requires AllDigits(whole) && |whole| >= 1 && AllDigits(frac)
    ensures ParseUnsigned(whole + ['.'] + frac) == DecimalValue(whole, frac)
  {
    assert whole + ['.'] + frac == whole + (['.'] + frac);
    ParseUnsignedAt(whole, ['.'] + frac);
    FractionAfterPoint(frac);
  }

  /** The fraction after a decimal point is all the digits that follow it. */
  lemma FractionAfterPoint(frac: string)
    requires AllDigits(frac)
    ensures FractionDigits(['.'] + frac) == frac
  {
    assert (['.'] + frac)[1..] == frac;
    DigitRunAll(frac);
    assert frac[..|frac|] == frac;
  }

  /** Without a sign in front, `parseFloat` reads an unsigned decimal. */
  lemma ParseFloatUnsigned(t: string)
    requires |t| > 0 && IsDigit(t[0])
    ensures ParseFloat(t) == ParseUnsigned(t)
  {
  }

  /** Digits followed by a non-digit are the whole part, and what follows them decides the fraction. */
  lemma ParseUnsignedAt(whole: string, rest: string)
    requires AllDigits(whole) && |whole| >= 1 && |rest| > 0 && !IsDigit(rest[0])
    ensures ParseUnsigned(whole + rest) == DecimalValue(whole, FractionDigits(rest))
  {
    LeadingDigitsThen(whole, rest);
    assert (whole + rest)[|whole|..] == rest;
  }

  /** The digit prefix of digits followed by a non-digit is those digits. */
  lemma LeadingDigitsThen(d: string, rest: string)
    requires AllDigits(d) && |rest| > 0 && !IsDigit(rest[0])
    ensures LeadingDigits(d + rest) == d
  {
    DigitRunIs(d + rest, |d|);
    assert (d + rest)[..|d|] == d;
  }

  /** Two digits after the decimal point are read as hundredths. */
  lemma TwoFractionDigits(cents: string)
    requires AllDigits(cents) && |cents| == 2
    ensures FractionValue(cents) == ValueOf(cents) as real / 100.0
  {
    var d0, d1 := DigitValue(cents[0]), DigitValue(cents[1]);
    assert cents[1..][1..] == [] && cents[1..][0] == cents[1];
    assert FractionValue(cents[1..]) == d1 as real / 10.0;
    assert cents[..1][..0] == [] && cents[..1][0] == cents[0];
    assert ValueOf(cents[..1]) == d0;
    assert ValueOf(cents) == 10 * d0 + d1;
  }

  /** `parseBRL` reads "R$ ", dotted whole reais, ',' and two centavo digits as the amount they show. */
  lemma ParseLayout(g: string, whole: string, cents: string)
    requires DigitsAndDots(g) && RemoveDots(g) == whole && AllDigits(whole) && |whole| >= 1
    requires AllDigits(cents) && |cents| == 2
    ensures ParseBRL("R$ " + g + "," + cents) == Some(ValueOf(whole) as real + ValueOf(cents) as real / 100.0)
  {
    MaskedTextWhitespace(g, cents);
    var noSpace := "R$" + (g + "," + cents);
    assert noSpace[..2] == "R$" && noSpace[2..] == g + "," + cents;
    MaskedTextDots(whole, g, cents);
    ReplaceFirstAt(whole, cents, ',', '.');
    ParseFloatFixedTwo(whole, cents);
  }

  /** `parseBRL` reads the masked text back as the amount the typed digits denote, in reais. */
  lemma ParseMaskRoundTrip(s: string)
    ensures ParseBRL(Mask(s)) == Some(CentsOf(s) as real / 100.0)
  {
    MaskLayout(s);
    ParseMaskedCents(CentsOf(s));
  }

  /** `parseBRL` reads the mask's layout of `n` centavos as `n / 100` reais. */
  lemma ParseMaskedCents(n: nat)
    ensures ParseBRL("R$ " + InsertThousandsDots(Decimal(n / 100)) + ","
                     + [DigitChar(n % 100 / 10), DigitChar(n % 10)]) == Some(n as real / 100.0)
  {
    var whole, cents := Decimal(n / 100), [DigitChar(n % 100 / 10), DigitChar(n % 10)];
    calc {
      ParseBRL("R$ " + InsertThousandsDots(whole) + "," + cents);
      == { ParseDottedAmount(whole, cents); }
      Some(ValueOf(whole) as real + ValueOf(cents) as real / 100.0);
      == { FixedTwoReais(n); }
      Some(n as real / 100.0);
    }
  }

  /** `parseBRL` reads "R$ ", the dotted form of a digit string, ',' and two digits as the amount they show. */
  lemma ParseDottedAmount(whole: string, cents: string)
    requires AllDigits(whole) && |whole| >= 1 && AllDigits(cents) && |cents| == 2
    ensures ParseBRL("R$ " + InsertThousandsDots(whole) + "," + cents)
            == Some(ValueOf(whole) as real + ValueOf(cents) as real / 100.0)
  {
    InsertDotsKeepsDigits(whole);
    ParseLayout(InsertThousandsDots(whole), whole, cents);
  }

  /** The whole reais and the two centavo digits of `n` centavos make `n / 100` reais. */
  lemma FixedTwoReais(n: nat)
    ensures ValueOf(Decimal(n / 100)) as real + ValueOf([DigitChar(n % 100 / 10), DigitChar(n % 10)]) as real / 100.0
            == n as real / 100.0
  {
    CentsDigits(n);
    CentsAsReais(n);
  }

  /** Whole reais plus centavos over a hundred are the centavos over a hundred. */
  lemma CentsAsReais(n: nat)
    ensures (n / 100) as real + (n % 100) as real / 100.0 == n as real / 100.0
  {
    assert n == n / 100 * 100 + n % 100;
    assert n as real == (n / 100) as real * 100.0 + (n % 100) as real;
  }
}
