/**
 Accept-Encoding negotiation (src/middleware/compression.rs, src/utils.rs; sections 5.3.1 and
 5.3.4 of RFC 7231): the header is split at commas, each item is parsed to a coding and a weight
 in thousandths, and the first item of greatest weight wins.
 */
module Negotiation {
  import opened Wrappers
  import opened Text

  datatype Encoding = Brotli | Deflate | Gzip

  function FromStr(s: string): Option<Encoding> {
    if s == "br" then Some(Brotli)
    else if s == "deflate" then Some(Deflate)
    else if s == "gzip" then Some(Gzip)
    else None
  }

  function ToStr(e: Encoding): string {
    match e
    case Brotli => "br"
    case Deflate => "deflate"
    case Gzip => "gzip"
  }

  // ---------------------------------------------------------------- strings

  /** `HeaderValue::to_str` accepts visible ASCII, space and tab. */
  predicate Visible(s: string) {
    forall i :: 0 <= i < |s| ==> s[i] == '\t' || ' ' <= s[i] <= '~'
  }

  function SplitOnce(s: string, sep: char): Option<(string, string)> {
    if s == "" then None
    else if s[0] == sep then Some(("", s[1..]))
    else
      var rest := SplitOnce(s[1..], sep);
      if rest.None? then None else Some(([s[0]] + rest.value.0, rest.value.1))
  }

  predicate Space(c: char) { c == ' ' || c == '\t' }

  /** `trim` on visible text, where blank and tab are the only whitespace. */
  function Trim(s: string): string
    decreases |s|
  {
    if s == "" then ""
    else if Space(s[0]) then Trim(s[1..])
    else if Space(s[|s| - 1]) then Trim(s[..|s| - 1])
    else s
  }

  function StripPrefix(s: string, p: string): Option<string> {
    if p <= s then Some(s[|p|..]) else None
  }

  predicate Digit(c: char) { '0' <= c <= '9' }

  predicate Digits(s: string) { forall i :: 0 <= i < |s| ==> Digit(s[i]) }

  function Decimal(s: string): nat
    requires Digits(s)
  {
    if s == "" then 0 else 10 * Decimal(s[..|s| - 1]) + (s[|s| - 1] - '0') as nat
  }

  /** `str::parse::<u32>`: an optional plus sign, then at least one digit, within range. */
  function ParseU32(s: string): Option<nat> {
    var digits := if s != "" && s[0] == '+' then s[1..] else s;
    if digits == "" || !Digits(digits) || Decimal(digits) >= 0x1_0000_0000 then None
    else Some(Decimal(digits))
  }

  /** `format!("{:0<3}")` */
  function PadRight(s: string, width: nat): string
    decreases width - |s|
  {
    if |s| >= width then s else PadRight(s + "0", width)
  }

  // ---------------------------------------------------------------- the header

  function ParseQValue(s: string): Option<nat> {
    var qvalue := StripPrefix(s, "q=");
    if qvalue.None? then None
    else if qvalue.value == "1" then Some(1000)
    else
      var digits := StripPrefix(qvalue.value, "0.");
      if digits.None? then None else Thousandths(digits.value)
  }

  /** Up to three digits, read as thousandths; zero is not a weight. */
  function Thousandths(digits: string): Option<nat> {
    if |digits| > 3 then None
    else
      var weight := ParseU32(PadRight(digits, 3));
      if weight == Some(0) then None else weight
  }

  type Weighted = (Encoding, nat)

  function ParseItem(s: string): Option<Weighted> {
    var (name, qvalue) := var parts := SplitOnce(s, ';'); if parts.Some? then parts.value else (s, "q=1");
    var encoding := FromStr(name);
    var weight := ParseQValue(qvalue);
    if encoding.None? || weight.None? then None else Some((encoding.value, weight.value))
  }

  function TrimmedItem(s: string): Option<Weighted> {
    ParseItem(Trim(s))
  }

  function FilterMap(f: string -> Option<Weighted>, items: seq<string>): seq<Weighted> {
    if items == [] then []
    else (if f(items[0]).Some? then [f(items[0]).value] else []) + FilterMap(f, items[1..])
  }

  function Reverse<T>(s: seq<T>): seq<T> {
    if s == [] then [] else Reverse(s[1..]) + [s[0]]
  }

  /** `max_by_key` on the weight: of equal maxima the last. */
  function MaxByWeight(s: seq<Weighted>): Option<Weighted> {
    if s == [] then None
    else
      var last := s[|s| - 1];
      var best := MaxByWeight(s[..|s| - 1]);
      if best.Some? && best.value.1 > last.1 then best else Some(last)
  }

  /** `get_preferred_encoding`, given the value of the Accept-Encoding header, if there is one. */
  function PreferredEncoding(header: Option<string>): Option<Encoding> {
    if header.None? || !Visible(header.value) then None
    else
      var best := MaxByWeight(Reverse(FilterMap(TrimmedItem, Split(header.value, ','))));
      if best.None? then None else Some(best.value.0)
  }

  // ---------------------------------------------------------------- which item wins

  /** Item `i` parses and beats every other: none outweighs it, none before it equals it. */
  ghost predicate Wins(f: string -> Option<Weighted>, items: seq<string>, i: nat, choice: Weighted) {
    && i < |items| && f(items[i]) == Some(choice)
    && forall j :: 0 <= j < |items| && f(items[j]).Some? ==>
         f(items[j]).value.1 <= choice.1 && (j < i ==> f(items[j]).value.1 < choice.1)
  }

  ghost predicate NoneParses(f: string -> Option<Weighted>, items: seq<string>) {
    forall j :: 0 <= j < |items| ==> f(items[j]).None?
  }

  /** A first item in front of the rest: it wins unless the rest's winner is heavier. */
  lemma FirstAgainstRest(f: string -> Option<Weighted>, items: seq<string>, k: nat, rest: Option<Weighted>)
    requires items != []
    requires if rest.Some? then Wins(f, items[1..], k, rest.value) else NoneParses(f, items[1..])
    ensures f(items[0]).Some? && !(rest.Some? && rest.value.1 > f(items[0]).value.1) ==>
      Wins(f, items, 0, f(items[0]).value)
    ensures rest.Some? && (f(items[0]).Some? ==> rest.value.1 > f(items[0]).value.1) ==>
      Wins(f, items, k + 1, rest.value)
    ensures rest.None? && f(items[0]).None? ==> NoneParses(f, items)
  {
    assert forall j :: 0 < j < |items| ==> items[j] == items[1..][j - 1];
  }

  lemma LastOfMaximum(s: seq<Weighted>, x: Weighted)
    ensures MaxByWeight(s + [x]) ==
      if MaxByWeight(s).Some? && MaxByWeight(s).value.1 > x.1 then MaxByWeight(s) else Some(x)
  {
    assert (s + [x])[..|s|] == s;
  }

  lemma MaximumWithFirst(f: string -> Option<Weighted>, items: seq<string>)
    requires items != []
    ensures var rest := MaxByWeight(Reverse(FilterMap(f, items[1..])));
      MaxByWeight(Reverse(FilterMap(f, items))) ==
      if f(items[0]).None? || (rest.Some? && rest.value.1 > f(items[0]).value.1) then rest else f(items[0])
  {
    var tail := FilterMap(f, items[1..]);
    if f(items[0]).Some? {
      var first := f(items[0]).value;
      assert FilterMap(f, items)[1..] == tail;
      assert Reverse(FilterMap(f, items)) == Reverse(tail) + [first];
      LastOfMaximum(Reverse(tail), first);
    } else {
      assert FilterMap(f, items) == tail;
    }
  }

  /** Reversing before taking the last maximum finds the first maximum. */
  lemma {:induction false} ReversedMaximumIsFirst(f: string -> Option<Weighted>, items: seq<string>)
    returns (i: nat)
    ensures var best := MaxByWeight(Reverse(FilterMap(f, items)));
      if best.Some? then Wins(f, items, i, best.value) else NoneParses(f, items)
  {
    i := 0;
    if items != [] {
      var tail := FilterMap(f, items[1..]);
      var k := ReversedMaximumIsFirst(f, items[1..]);
      var rest := MaxByWeight(Reverse(tail));
      FirstAgainstRest(f, items, k, rest);
      MaximumWithFirst(f, items);
      i := if f(items[0]).Some? && !(rest.Some? && rest.value.1 > f(items[0]).value.1) then 0 else k + 1;
    }
  }

  lemma WinnerUnique(f: string -> Option<Weighted>, items: seq<string>, i: nat, c: Weighted, k: nat, d: Weighted)
    requires Wins(f, items, i, c) && Wins(f, items, k, d)
    ensures i == k && c == d
  {
  }

  // ---------------------------------------------------------------- what an item is

  lemma {:induction false} SplitOnceExact(s: string, sep: char, a: string, b: string)
    ensures SplitOnce(s, sep) == Some((a, b)) <==> sep !in a && s == a + [sep] + b
    ensures SplitOnce(s, sep) == None <==> sep !in s
  {
    if s != "" && s[0] != sep {
      var a' := if a == "" then "" else a[1..];
      SplitOnceExact(s[1..], sep, a', b);
      assert s == [s[0]] + s[1..];
      if a != "" {
        assert a == [a[0]] + a[1..];
        assert s == a + [sep] + b <==> s[0] == a[0] && s[1..] == a' + [sep] + b;
      }
    } else if s != "" && a == "" {
      assert s == a + [sep] + b <==> s[1..] == b;
    }
  }

  lemma NameExact(s: string, e: Encoding)
    ensures FromStr(s) == Some(e) <==> s == ToStr(e)
    ensures ';' !in ToStr(e)
  {
  }

  /** An item is a supported name alone, which has full weight, or a name, a semicolon and a weight. */
  lemma ItemExact(s: string, e: Encoding, w: nat)
    ensures ParseItem(s) == Some((e, w)) <==>
      || (s == ToStr(e) && w == 1000)
      || exists q :: s == ToStr(e) + ";" + q && ParseQValue(q) == Some(w)
  {
    NameExact(s, e);
    FullWeight();
    var parts := SplitOnce(s, ';');
    if parts.Some? {
      var (a, b) := parts.value;
      SplitOnceExact(s, ';', a, b);
      NameExact(a, e);
      forall q | s == ToStr(e) + ";" + q ensures parts == Some((ToStr(e), q)) {
        SplitOnceExact(s, ';', ToStr(e), q);
      }
    } else {
      SplitOnceExact(s, ';', "", "");
      forall q ensures s != ToStr(e) + ";" + q {
        assert ';' in ToStr(e) + ";" + q;
      }
    }
  }

  /** Blanks around an item are ignored, and nothing else. */
  lemma {:induction false} TrimExact(w1: string, x: string, w2: string)
    requires forall i :: 0 <= i < |w1| ==> Space(w1[i])
    requires forall i :: 0 <= i < |w2| ==> Space(w2[i])
    requires x == "" || (!Space(x[0]) && !Space(x[|x| - 1]))
    ensures Trim(w1 + x + w2) == x
    decreases |w1| + |w2|
  {
    var s := w1 + x + w2;
    if w1 != "" {
      assert s[1..] == w1[1..] + x + w2;
      TrimExact(w1[1..], x, w2);
    } else if w2 != "" {
      if x == "" {
        assert s[1..] == "" + x + w2[1..];
        TrimExact("", x, w2[1..]);
      } else {
        assert s[..|s| - 1] == "" + x + w2[..|w2| - 1];
        TrimExact("", x, w2[..|w2| - 1]);
      }
    } else {
      assert s == x;
    }
  }

  // ---------------------------------------------------------------- what weights mean

  /** The value of the digits after "0." */
  function Fraction(s: string): real
    requires Digits(s)
  {
    if s == "" then 0.0 else ((s[0] - '0') as int as real + Fraction(s[1..])) / 10.0
  }

  lemma {:induction false} PadDigits(d: string, width: nat)
    requires Digits(d) && |d| <= width
    ensures Digits(PadRight(d, width)) && |PadRight(d, width)| == width
    ensures Fraction(PadRight(d, width)) == Fraction(d)
    decreases width - |d|
  {
    if |d| < width {
      PadDigits(d + "0", width);
      TrailingZero(d);
    }
  }

  lemma {:induction false} TrailingZero(d: string)
    requires Digits(d)
    ensures Digits(d + "0") && Fraction(d + "0") == Fraction(d)
  {
    if d != "" {
      assert (d + "0")[1..] == d[1..] + "0";
      TrailingZero(d[1..]);
    }
  }

  function DigitAt(s: string, i: nat): int
    requires Digits(s) && i < |s|
  {
    (s[i] - '0') as int
  }

  lemma ThreeDigits(p: string)
    requires Digits(p) && |p| == 3
    ensures Decimal(p) == 100 * DigitAt(p, 0) + 10 * DigitAt(p, 1) + DigitAt(p, 2)
    ensures Fraction(p) == Decimal(p) as real / 1000.0
    ensures Decimal(p) < 1000
  {
    assert p[..2][..1] == p[..1] && p[..1][..0] == "";
    assert Decimal(p[..1]) == DigitAt(p, 0);
    assert Decimal(p[..2]) == 10 * DigitAt(p, 0) + DigitAt(p, 1);
    assert p[1..][1..] == p[2..] && p[2..][1..] == "";
    assert Fraction(p[2..]) == DigitAt(p, 2) as real / 10.0;
    assert Fraction(p[1..]) == (DigitAt(p, 1) as real + Fraction(p[2..])) / 10.0;
  }

  /** A weight written "0." and up to three digits is exactly that fraction, in thousandths. */
  lemma FractionalWeight(d: string)
    requires Digits(d) && |d| <= 3
    ensures Fraction(d) > 0.0 ==>
      ParseQValue("q=0." + d).Some? && ParseQValue("q=0." + d).value as real == 1000.0 * Fraction(d)
    ensures Fraction(d) == 0.0 ==> ParseQValue("q=0." + d) == None
    ensures 0.0 <= Fraction(d) < 1.0
  {
    var p := PadRight(d, 3);
    FractionForm(d);
    PadKeeps(d, 3);
    ThreeDigits(p);
    assert d != "" ==> Digit(d[0]);
    FractionExact(d, Decimal(p));
    if Thousandths(d).Some? { FractionExact(d, Thousandths(d).value); }
  }

  lemma DigitExact(c: char)
    ensures Digit(c) <==> c in "0123456789"
    ensures Digit(c) ==> "0123456789"[c as int - '0' as int] == c
  {
  }

  lemma StripWhole(p: string, x: string)
    ensures StripPrefix(p + x, p) == Some(x)
  {
    assert (p + x)[|p|..] == x;
  }

  lemma FractionForm(d: string)
    ensures ParseQValue("q=0." + d) == Thousandths(d)
  {
    FractionPrefix(d);
    StripWhole("q=", "0." + d);
    StripWhole("0.", d);
  }

  lemma FractionPrefix(d: string)
    ensures "q=0." + d == "q=" + ("0." + d)
    ensures "0." + d != "1"
  {
    assert ("0." + d)[0] == '0';
  }

  lemma FullWeight()
    ensures ParseQValue("q=1") == Some(1000)
  {
    assert "q=1"[2..] == "1";
  }

  /** Comparing parsed weights as integers is comparing the written numbers. */
  lemma WeightOrderIsDecimalOrder(d: string, e: string)
    requires Digits(d) && |d| <= 3 && Digits(e) && |e| <= 3 && Fraction(d) > 0.0 && Fraction(e) > 0.0
    ensures ParseQValue("q=0." + d).Some? && ParseQValue("q=0." + e).Some?
    ensures ParseQValue("q=0." + d).value < ParseQValue("q=0." + e).value <==> Fraction(d) < Fraction(e)
    ensures ParseQValue("q=0." + d).value < ParseQValue("q=1").value
  {
    FractionalWeight(d);
    FractionalWeight(e);
    FullWeight();
  }

  /** Every accepted weight lies in 1..1000; only "q=1" has the full weight. */
  lemma WeightRange(s: string)
    requires ParseQValue(s).Some?
    ensures 1 <= ParseQValue(s).value <= 1000
    ensures ParseQValue(s).value == 1000 <==> s == "q=1"
  {
    var q := StripPrefix(s, "q=").value;
    assert s == "q=" + q;
    if q != "1" {
      var d := StripPrefix(q, "0.").value;
      var p := PadRight(d, 3);
      PadLength(d, 3);
      if p[0] == '+' {
        TwoDigits(p[1..]);
      } else {
        ThreeDigits(p);
      }
    }
  }

  lemma {:induction false} PadLength(d: string, width: nat)
    requires |d| <= width
    ensures |PadRight(d, width)| == width
    decreases width - |d|
  {
    if |d| < width { PadLength(d + "0", width); }
  }

  lemma TwoDigits(p: string)
    requires Digits(p) && |p| == 2
    ensures Decimal(p) == 10 * DigitAt(p, 0) + DigitAt(p, 1) < 100
    ensures Fraction(p) == Decimal(p) as real / 100.0
  {
    assert p[..1][..0] == "";
    assert Decimal(p[..1]) == DigitAt(p, 0);
    assert p[1..][1..] == "";
    assert Fraction(p[1..]) == DigitAt(p, 1) as real / 10.0;
  }

  // ---------------------------------------------------------------- the whole header, said without the parser

  /**
   What may follow "q=0.": up to three digits, worth that fraction in thousandths, or, as integer
   parsing lets it pass, a plus sign and up to two digits, which then count a tenth: "+5" is worth
   fifty thousandths. Zero is no weight.
   */
  ghost predicate IsFraction(d: string, w: nat) {
    && w > 0 && |d| <= 3
    && if d != "" && d[0] == '+' then Digits(d[1..]) && w as real == 100.0 * Fraction(d[1..])
       else Digits(d) && w as real == 1000.0 * Fraction(d)
  }

  ghost predicate Weighs(q: string, w: nat) {
    (q == "q=1" && w == 1000) || exists d :: q == "q=0." + d && IsFraction(d, w)
  }

  /** An item offers a coding: its name, and possibly a semicolon and a weight, among blanks. */
  ghost predicate Offers(item: string, e: Encoding, w: nat) {
    exists w1, x, w2 :: Among(item, w1, x, w2) && Bare(x, e, w)
  }

  ghost predicate Bare(x: string, e: Encoding, w: nat) {
    (x == ToStr(e) && w == 1000) || exists q :: x == ToStr(e) + ";" + q && Weighs(q, w)
  }

  ghost predicate Blanks(s: string) {
    forall i :: 0 <= i < |s| ==> s[i] == ' ' || s[i] == '\t'
  }

  /** Between blanks: `s` is `x` with blanks around it. */
  ghost predicate Among(s: string, w1: string, x: string, w2: string) {
    s == w1 + x + w2 && Blanks(w1) && Blanks(w2)
  }

  lemma {:induction false} PadSigned(d: string, width: nat)
    requires |d| <= width
    ensures PadRight("+" + d, width + 1) == "+" + PadRight(d, width)
    decreases width - |d|
  {
    if |d| < width {
      PadSigned(d + "0", width);
      assert "+" + (d + "0") == ("+" + d) + "0";
    }
  }

  /** Padding changes neither whether a text is a number nor its fraction. */
  lemma PadKeeps(d: string, width: nat)
    requires |d| <= width
    ensures var p := PadRight(d, width);
      && |p| == width && (Digits(p) <==> Digits(d)) && (Digits(d) ==> Fraction(p) == Fraction(d))
      && (d != "" ==> p[0] == d[0]) && (d == "" && width > 0 ==> p[0] == '0')
  {
    PadLength(d, width);
    PadLengthens(d, width);
    if d == "" && width > 0 {
      assert d + "0" == "0";
      PadLengthens("0", width);
    }
    if Digits(d) { PadDigits(d, width); } else { PaddedDigits(d, width); }
  }

  lemma SignedNumber(p: string, w: nat)
    requires |p| == 2
    ensures ParseU32("+" + p) == Some(w) <==> Digits(p) && w as real == 100.0 * Fraction(p)
  {
    assert ("+" + p)[1..] == p;
    if Digits(p) { TwoDigits(p); }
  }

  lemma PlainNumber(p: string, w: nat)
    requires |p| == 3 && p[0] != '+'
    ensures ParseU32(p) == Some(w) <==> Digits(p) && w as real == 1000.0 * Fraction(p)
  {
    if Digits(p) { ThreeDigits(p); }
  }

  lemma FractionExact(d: string, w: nat)
    ensures Thousandths(d) == Some(w) <==> IsFraction(d, w)
  {
    if |d| <= 3 && d != "" && d[0] == '+' {
      var e := d[1..];
      assert d == "+" + e;
      PadSigned(e, 2);
      PadKeeps(e, 2);
      SignedNumber(PadRight(e, 2), w);
    } else if |d| <= 3 {
      PadKeeps(d, 3);
      PlainNumber(PadRight(d, 3), w);
    }
  }

  lemma {:induction false} PadLengthens(d: string, width: nat)
    ensures d <= PadRight(d, width)
    decreases width - |d|
  {
    if |d| < width { PadLengthens(d + "0", width); }
  }

  lemma PaddedDigits(d: string, width: nat)
    requires !Digits(d)
    ensures !Digits(PadRight(d, width))
  {
    PadLengthens(d, width);
    var i :| 0 <= i < |d| && !Digit(d[i]);
    assert PadRight(d, width)[i] == d[i];
  }

  lemma WeightForms(q: string)
    requires ParseQValue(q).Some? && q != "q=1"
    ensures |q| >= 4 && q == "q=0." + q[4..]
  {
    var v := StripPrefix(q, "q=").value;
    assert q == "q=" + v && v == "0." + v[2..];
  }

  /** The weights that are accepted, with what they are worth, and no others. */
  lemma WeightExact(q: string, w: nat)
    ensures ParseQValue(q) == Some(w) <==> Weighs(q, w)
  {
    FullWeight();
    if ParseQValue(q) == Some(w) && q != "q=1" {
      WeightForms(q);
      FractionForm(q[4..]);
      FractionExact(q[4..], w);
    }
    forall d | q == "q=0." + d && IsFraction(d, w) ensures ParseQValue(q) == Some(w) {
      FractionForm(d);
      FractionExact(d, w);
    }
  }

  lemma OneMoreBlank(c: char, s: string, w1: string, x: string, w2: string)
    requires Among(s, w1, x, w2) && Space(c)
    ensures Among([c] + s, [c] + w1, x, w2) && Among(s + [c], w1, x, w2 + [c])
  {
  }

  lemma {:induction false} TrimSplits(s: string) returns (w1: string, w2: string)
    ensures Among(s, w1, Trim(s), w2)
    decreases |s|
  {
    w1, w2 := "", "";
    if s == "" {
    } else if Space(s[0]) {
      w1, w2 := TrimSplits(s[1..]);
      assert s == [s[0]] + s[1..];
      OneMoreBlank(s[0], s[1..], w1, Trim(s[1..]), w2);
      w1 := [s[0]] + w1;
    } else if Space(s[|s| - 1]) {
      var g, c := s[..|s| - 1], s[|s| - 1];
      w1, w2 := TrimSplits(g);
      assert s == g + [c];
      OneMoreBlank(c, g, w1, Trim(g), w2);
      w2 := w2 + [c];
    } else {
      assert s == "" + s + "";
    }
  }

  lemma BareParses(x: string, e: Encoding, w: nat)
    ensures ParseItem(x) == Some((e, w)) <==> Bare(x, e, w)
  {
    ItemExact(x, e, w);
    forall q ensures ParseQValue(q) == Some(w) <==> Weighs(q, w) { WeightExact(q, w); }
  }

  /** No weight ends in a blank. */
  lemma WeightEnds(q: string, w: nat)
    requires Weighs(q, w)
    ensures q != "" && !Space(q[|q| - 1])
  {
    if q != "q=1" {
      var d :| q == "q=0." + d && IsFraction(d, w);
      if d != "" {
        assert q[|q| - 1] == d[|d| - 1];
        if d[0] == '+' && |d| > 1 { assert d[1..][|d| - 2] == d[|d| - 1]; }
      }
    }
  }

  lemma BareEnds(x: string, e: Encoding, w: nat)
    requires Bare(x, e, w)
    ensures x != "" && !Space(x[0]) && !Space(x[|x| - 1])
  {
    if x != ToStr(e) {
      var q :| x == ToStr(e) + ";" + q && Weighs(q, w);
      WeightEnds(q, w);
      assert x[|x| - 1] == q[|q| - 1] && x[0] == ToStr(e)[0];
    }
  }

  /** An item is parsed, trimmed and all, to a coding and a weight exactly if it offers them. */
  lemma OfferExact(item: string, e: Encoding, w: nat)
    ensures TrimmedItem(item) == Some((e, w)) <==> Offers(item, e, w)
  {
    BareParses(Trim(item), e, w);
    if Bare(Trim(item), e, w) {
      var w1, w2 := TrimSplits(item);
    }
    forall w1, x, w2 | Among(item, w1, x, w2) && Bare(x, e, w) ensures Trim(item) == x {
      BareEnds(x, e, w);
      TrimExact(w1, x, w2);
    }
  }

  /** Item `i` offers the coding with this weight, and none outweighs it, none before it equals it. */
  ghost predicate BestOffer(items: seq<string>, i: nat, e: Encoding, w: nat) {
    && i < |items| && Offers(items[i], e, w)
    && forall j, e', w': nat :: 0 <= j < |items| && Offers(items[j], e', w') ==> w' <= w && (j < i ==> w' < w)
  }

  /** What `to_str` lets pass: tab and the characters from blank to tilde. */
  ghost predicate PlainText(s: string) {
    forall i :: 0 <= i < |s| ==> s[i] as int == 9 || 32 <= s[i] as int <= 126
  }

  lemma WinsIsBest(items: seq<string>, i: nat, e: Encoding, w: nat)
    ensures Wins(TrimmedItem, items, i, (e, w)) <==> BestOffer(items, i, e, w)
  {
    if i < |items| { OfferExact(items[i], e, w); }
    if Wins(TrimmedItem, items, i, (e, w)) {
      forall j, e', w': nat | 0 <= j < |items| && Offers(items[j], e', w') ensures w' <= w && (j < i ==> w' < w) {
        OfferExact(items[j], e', w');
      }
    }
    if BestOffer(items, i, e, w) {
      forall j | 0 <= j < |items| && TrimmedItem(items[j]).Some?
        ensures TrimmedItem(items[j]).value.1 <= w && (j < i ==> TrimmedItem(items[j]).value.1 < w)
      {
        var (e', w') := TrimmedItem(items[j]).value;
        OfferExact(items[j], e', w');
      }
    }
  }

  /**
   The chosen encoding is that of the first listed offer of greatest weight, and of no other; none
   is chosen exactly if there is no header, or it is not visible text, or none of its items offers
   a supported coding.
   */
  lemma FirstBestWins(header: Option<string>, e: Encoding)
    ensures PreferredEncoding(header) == Some(e) <==>
      header.Some? && PlainText(header.value) && exists i: nat, w: nat :: BestOffer(Split(header.value, ','), i, e, w)
    ensures PreferredEncoding(header) == None <==>
      (header.Some? && PlainText(header.value) ==>
        forall j, e', w': nat :: 0 <= j < |Split(header.value, ',')| ==> !Offers(Split(header.value, ',')[j], e', w'))
  {
    if header.Some? {
      assert Visible(header.value) <==> PlainText(header.value) by { VisibleExact(header.value); }
      if Visible(header.value) { ChosenFromItems(Split(header.value, ','), e); }
    }
  }

  lemma VisibleExact(s: string)
    ensures Visible(s) <==> PlainText(s)
  {
    forall i | 0 <= i < |s|
      ensures (s[i] == '\t' || ' ' <= s[i] <= '~') <==> s[i] as int == 9 || 32 <= s[i] as int <= 126
    {
    }
  }

  /** The winner among the items, if any of them parses. */
  function Winner(items: seq<string>): Option<Weighted> {
    MaxByWeight(Reverse(FilterMap(TrimmedItem, items)))
  }

  lemma ChosenFromItems(items: seq<string>, e: Encoding)
    ensures Winner(items).Some? && Winner(items).value.0 == e <==> exists i: nat, w: nat :: BestOffer(items, i, e, w)
    ensures Winner(items) == None <==>
      forall j, e', w': nat :: 0 <= j < |items| ==> !Offers(items[j], e', w')
  {
    var i := ReversedMaximumIsFirst(TrimmedItem, items);
    var best := Winner(items);
    if best.Some? {
      BestChosen(items, i, best.value);
      forall k: nat, w: nat | BestOffer(items, k, e, w) ensures best.value == (e, w) {
        WinsIsBest(items, k, e, w);
        WinnerUnique(TrimmedItem, items, i, best.value, k, (e, w));
      }
    } else {
      forall j, e', w': nat | 0 <= j < |items| ensures !Offers(items[j], e', w') { OfferExact(items[j], e', w'); }
    }
  }

  lemma BestChosen(items: seq<string>, i: nat, best: Weighted)
    requires Wins(TrimmedItem, items, i, best)
    ensures BestOffer(items, i, best.0, best.1) && Offers(items[i], best.0, best.1)
  {
    WinsIsBest(items, i, best.0, best.1);
  }
}
