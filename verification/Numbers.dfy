/** Printing and parsing integers: os/lib/stdlib.c, with strrev of os/lib/string.c. */
module Numbers {
  import opened Common
  import opened Paths
  import Bits

  const INT64_MIN: int := -0x8000_0000_0000_0000
  const LOOKUP: string := "0123456789ABCDEFGHIJKLMNOPQRSTUVWXYZ"

  // ----- texts and values ---------------------------------------------------------------------

  /** The digits of a positive number, most significant first; none for zero. */
  function Digits(n: nat, b: nat): (ds: seq<nat>)
    requires b >= 2
    ensures forall i :: 0 <= i < |ds| ==> ds[i] < b
    ensures n > 0 ==> ds != []
    decreases n
  {
    if n == 0 then [] else
      DivStep(n, b);
      Digits(n / b, b) + [n % b]
  }

  lemma DivStep(n: nat, b: nat)
    requires n > 0 && b >= 2
    ensures n / b < n && n % b < b && n == n / b * b + n % b
  {
  }

  predicate Below36(ds: seq<nat>) {
    forall k :: 0 <= k < |ds| ==> ds[k] < 36
  }

  function Text(ds: seq<nat>): (t: string)
    requires Below36(ds)
    ensures |t| == |ds|
  {
    seq(|ds|, i requires 0 <= i < |ds| => LOOKUP[ds[i]])
  }

  function UllText(n: nat, b: nat): string
    requires 2 <= b <= 36
  {
    if n == 0 then "0" else Text(Digits(n, b))
  }

  function LlText(n: int, b: nat): string
    requires 2 <= b <= 36
  {
    if n < 0 then "-" + UllText(-n, b) else UllText(n, b)
  }

  /** The number a text begins with a digit of; 16 stands for a character that is no digit. */
  function DigitValue(c: char): (d: nat)
    ensures d <= 16
  {
    if '0' <= c <= '9' then (c - '0') as nat
    else if 'A' <= c <= 'F' then (c - 'A') as nat + 10
    else if 'a' <= c <= 'f' then (c - 'a') as nat + 10
    else 16
  }

  predicate IsDigit(c: char, b: nat) {
    DigitValue(c) < 16 && DigitValue(c) < b
  }

  /** 64-bit arithmetic: unsigned, or signed in two's complement. */
  function Wrap(x: int, signed: bool): int {
    var u := x % UINT64;
    if signed && u >= 0x8000_0000_0000_0000 then u - UINT64 else u
  }

  function ParseFrom(s: string, b: nat, number: int, signed: bool): int
    decreases |s|
  {
    if s == "" || !IsDigit(s[0], b) then number
    else ParseFrom(s[1..], b, Wrap(number * b + DigitValue(s[0]), signed), signed)
  }

  function SkipSpaces(s: string): string {
    if s != "" && s[0] == ' ' then SkipSpaces(s[1..]) else s
  }

  /** Base 0 is read off the text: 0x or 0X, a leading 0, or neither. */
  function ChooseBase(s: string, b: nat): (nat, string) {
    if b != 0 then (b, s)
    else if s != "" && s[0] == '0' then
      if |s| > 1 && (s[1] == 'x' || s[1] == 'X') then (16, s[2..]) else (8, s[1..])
    else (10, s)
  }

  /** str_to_ull */
  function ParseUll(s: string, b: nat): int {
    var (base, digits) := ChooseBase(SkipSpaces(s), b);
    ParseFrom(digits, base, 0, false)
  }

  /** str_to_ll */
  function ParseLl(s: string, b: nat): int {
    var t := SkipSpaces(s);
    if t != "" && t[0] == '-' then
      var (base, digits) := ChooseBase(t[1..], b);
      Wrap(-ParseFrom(digits, base, 0, true), true)
    else
      var (base, digits) := ChooseBase(t, b);
      ParseFrom(digits, base, 0, true)
  }

  // ----- the round trip -----------------------------------------------------------------------

  /** The parser knows no digit beyond F. */
  predicate Below16(ds: seq<nat>) {
    forall i :: 0 <= i < |ds| ==> ds[i] < 16
  }

  predicate DigitsBelow16(n: nat, b: nat)
    requires b >= 2
  {
    Below16(Digits(n, b))
  }

  lemma LookupDigit(d: nat)
    requires d < 36
    ensures DigitValue(LOOKUP[d]) == if d < 16 then d else 16
    ensures LOOKUP[d] != ' ' && LOOKUP[d] != '-' && LOOKUP[d] != '\0'
  {
    assert LOOKUP[d] == if d < 10 then '0' + d as char else 'A' + (d - 10) as char;
  }

  predicate AllDigits(s: string, b: nat) {
    forall i :: 0 <= i < |s| ==> IsDigit(s[i], b)
  }

  /** Digits up front are consumed; the rest continues from there. */
  lemma {:induction false} ParseAppend(s: string, t: string, b: nat, number: int, signed: bool)
    ensures AllDigits(s, b) ==>
      ParseFrom(s + t, b, number, signed) == ParseFrom(t, b, ParseFrom(s, b, number, signed), signed)
    ensures !AllDigits(s, b) ==> ParseFrom(s + t, b, number, signed) == ParseFrom(s, b, number, signed)
    decreases |s|
  {
    if s == "" {
      assert s + t == t;
    } else {
      assert (s + t)[1..] == s[1..] + t;
      assert AllDigits(s, b) <==> IsDigit(s[0], b) && AllDigits(s[1..], b);
      if IsDigit(s[0], b) {
        ParseAppend(s[1..], t, b, Wrap(number * b + DigitValue(s[0]), signed), signed);
      }
    }
  }

  lemma TextSnoc(ds: seq<nat>, d: nat)
    requires d < 36 && Below36(ds)
    ensures Below36(ds + [d])
    ensures Text(ds + [d]) == Text(ds) + [LOOKUP[d]]
    ensures Below16(ds + [d]) <==> Below16(ds) && d < 16
  {
    assert (ds + [d])[|ds|] == d;
    forall i | Below16(ds + [d]) && 0 <= i < |ds| ensures ds[i] < 16 {
      assert (ds + [d])[i] == ds[i];
    }
  }

  lemma AllDigitsSnoc(t: string, c: char, b: nat)
    ensures AllDigits(t + [c], b) <==> AllDigits(t, b) && IsDigit(c, b)
  {
    assert (t + [c])[|t|] == c;
    assert forall i :: 0 <= i < |t| ==> (t + [c])[i] == t[i];
  }

  lemma {:induction false} AllDigitsText(ds: seq<nat>, b: nat)
    requires b <= 36 && forall i :: 0 <= i < |ds| ==> ds[i] < b
    ensures AllDigits(Text(ds), b) <==> Below16(ds)
    decreases |ds|
  {
    if ds != [] {
      var rest, d := ds[..|ds| - 1], ds[|ds| - 1];
      assert ds == rest + [d];
      AllDigitsText(rest, b);
      TextSnoc(rest, d);
      LookupDigit(d);
      AllDigitsSnoc(Text(rest), LOOKUP[d], b);
    }
  }

  /** One more digit at the end. */
  lemma ParseSnoc(ds: seq<nat>, d: nat, b: nat, signed: bool)
    requires d < b <= 36 && forall i :: 0 <= i < |ds| ==> ds[i] < b
    ensures ParseFrom(Text(ds + [d]), b, 0, signed) ==
      if Below16(ds + [d]) then Wrap(ParseFrom(Text(ds), b, 0, signed) * b + d, signed)
      else ParseFrom(Text(ds), b, 0, signed)
  {
    hide ParseFrom, Text, Wrap, AllDigits;
    TextSnoc(ds, d);
    LookupDigit(d);
    AllDigitsText(ds, b);
    ParseAppend(Text(ds), [LOOKUP[d]], b, 0, signed);
    ParseOne(LOOKUP[d], b, ParseFrom(Text(ds), b, 0, signed), signed);
  }

  lemma ParseOne(c: char, b: nat, number: int, signed: bool)
    ensures ParseFrom([c], b, number, signed) ==
      if IsDigit(c, b) then Wrap(number * b + DigitValue(c), signed) else number
  {
    assert [c][1..] == "";
  }

  /** Parsing a printed number gives it back if all its digits are below 16, and less than it otherwise. */
  lemma {:induction false} ParsePrinted(n: nat, b: nat, signed: bool)
    requires 2 <= b <= 36 && n < if signed then 0x8000_0000_0000_0000 else UINT64
    ensures var r := ParseFrom(Text(Digits(n, b)), b, 0, signed);
      0 <= r <= n && (r == n <==> DigitsBelow16(n, b))
    decreases n
  {
    hide ParseFrom, Text, Wrap;
    if n == 0 {
      ParseNothing(b, signed);
    } else {
      DivStep(n, b);
      ParsePrinted(n / b, b, signed);
      ParseSnoc(Digits(n / b, b), n % b, b, signed);
      TextSnoc(Digits(n / b, b), n % b);
      WrapFits(n, signed);
    }
  }

  lemma ParseNothing(b: nat, signed: bool)
    ensures ParseFrom(Text([]), b, 0, signed) == 0
  {
  }

  lemma WrapFits(n: nat, signed: bool)
    requires n < if signed then 0x8000_0000_0000_0000 else UINT64
    ensures Wrap(n, signed) == n
    ensures signed ==> Wrap(0 - n, signed) == 0 - n
  {
    if n > 0 { assert (0 - n) % UINT64 == UINT64 - n; }
  }

  lemma UllTextParses(n: nat, b: nat, signed: bool)
    requires 2 <= b <= 36 && n < if signed then 0x8000_0000_0000_0000 else UINT64
    ensures UllText(n, b) != "" && UllText(n, b)[0] != ' ' && UllText(n, b)[0] != '-'
    ensures var r := ParseFrom(UllText(n, b), b, 0, signed);
      0 <= r <= n && (r == n <==> DigitsBelow16(n, b))
  {
    if n > 0 {
      ParsePrinted(n, b, signed);
      LookupDigit(Digits(n, b)[0]);
    } else {
      assert "0"[1..] == "" && DigitValue('0') == 0;
    }
  }

  /** str_to_ull(ull_to_str(n, b), b) is n if and only if every base-b digit of n is below 16. */
  lemma UllRoundTrip(n: nat, b: nat)
    requires 2 <= b <= 36 && n < UINT64
    ensures ParseUll(UllText(n, b), b) == n <==> DigitsBelow16(n, b)
    ensures b <= 16 ==> ParseUll(UllText(n, b), b) == n
  {
    UllTextParses(n, b, false);
  }

  /** The same for signed numbers above the least one, whose negation does not exist. */
  lemma LlRoundTrip(n: int, b: nat)
    requires 2 <= b <= 36 && INT64_MIN < n < 0x8000_0000_0000_0000
    ensures ParseLl(LlText(n, b), b) == n <==> DigitsBelow16(if n < 0 then -n else n, b)
    ensures b <= 16 ==> ParseLl(LlText(n, b), b) == n
  {
    hide UllText, ParseFrom, Wrap;
    if n < 0 {
      UllTextParses(-n, b, true);
      WrapFits(ParseFrom(UllText(-n, b), b, 0, true), true);
      assert ("-" + UllText(-n, b))[1..] == UllText(-n, b);
    } else {
      UllTextParses(n, b, true);
    }
  }

  // ----- what digits mean ---------------------------------------------------------------------

  /** The number digits stand for, most significant first. */
  function Value(ds: seq<nat>, b: nat): nat {
    if ds == [] then 0 else Value(ds[..|ds| - 1], b) * b + ds[|ds| - 1]
  }

  /** The digits printed stand for the number. */
  lemma {:induction false} DigitsValue(n: nat, b: nat)
    requires 2 <= b <= 36
    ensures Value(Digits(n, b), b) == n
    decreases n
  {
    if n > 0 {
      DivStep(n, b);
      DigitsValue(n / b, b);
      assert Digits(n, b)[..|Digits(n, b)| - 1] == Digits(n / b, b);
    }
  }

  /** They are written 0 to 9 and then A to Z. */
  lemma DigitsShown(n: nat, b: nat)
    requires 2 <= b <= 36
    ensures forall i :: 0 <= i < |Digits(n, b)| ==>
      Text(Digits(n, b))[i] ==
        if Digits(n, b)[i] < 10 then '0' + Digits(n, b)[i] as char else 'A' + (Digits(n, b)[i] - 10) as char
  {
    hide Digits;
    forall i | 0 <= i < |Digits(n, b)|
      ensures Text(Digits(n, b))[i] ==
        if Digits(n, b)[i] < 10 then '0' + Digits(n, b)[i] as char else 'A' + (Digits(n, b)[i] - 10) as char
    {
      LookupChar(Digits(n, b)[i]);
    }
  }

  lemma LookupChar(d: nat)
    requires d < 36
    ensures LOOKUP[d] == if d < 10 then '0' + d as char else 'A' + (d - 10) as char
  {
  }

  /** The character is that digit, in upper or lower case. */
  predicate Shows(c: char, d: nat) {
    d < 16 && (c == "0123456789ABCDEF"[d] || c == "0123456789abcdef"[d])
  }

  lemma ShownValue(c: char, d: nat)
    requires d < 16
    ensures Shows(c, d) <==> DigitValue(c) == d
  {
  }

  lemma ShownBelow(c: char, d: nat)
    requires Shows(c, d)
    ensures d < 16 && DigitValue(c) == d && forall b :: b > d ==> IsDigit(c, b)
  {
  }

  /** The 64-bit word that is a number up to multiples of 2^64. */
  lemma WrapMeans(x: int, signed: bool)
    ensures var r := Wrap(x, signed);
      && (r - x) % 0x1_0000_0000_0000_0000 == 0
      && if signed then -0x8000_0000_0000_0000 <= r < 0x8000_0000_0000_0000 else 0 <= r < 0x1_0000_0000_0000_0000
  {
  }

  lemma WrapTwice(number: int, x: int, b: nat, d: nat, signed: bool)
    requires number == Wrap(x, signed)
    ensures Wrap(number * b + d, signed) == Wrap(x * b + d, signed)
  {
    WrapMeans(x, signed);
    var k := (number - x) / UINT64;
    assert number == x + k * UINT64;
    assert number * b + d == x * b + d + (k * b) * UINT64;
    SameResidue(x * b + d, k * b);
  }

  lemma SameResidue(x: int, k: int)
    ensures (x + k * UINT64) % UINT64 == x % UINT64
  {
  }

  /**
   * Both parsers' digit loop, on any text: digits of the base in either case, and then the end or a character that is
   * none. The result is what the digits stand for, cut to 64 bits.
   */
  lemma {:induction false} ParseMeans(text: string, ds: seq<nat>, rest: string, b: nat, signed: bool)
    requires |text| == |ds| && forall i :: 0 <= i < |ds| ==> ds[i] < b && Shows(text[i], ds[i])
    requires rest != "" ==> forall d :: 0 <= d < b ==> !Shows(rest[0], d)
    ensures ParseFrom(text + rest, b, 0, signed) == Wrap(Value(ds, b), signed)
    decreases |ds|
  {
    hide Wrap, Shows, IsDigit, AllDigits;
    if ds == [] {
      assert text + rest == rest;
      WrapFits(0, signed);
      if rest != "" { NoDigit(rest[0], b); }
    } else {
      var n := |ds| - 1;
      var c := text[n];
      AllShown(text, ds, b);
      AllShown(text[..n], ds[..n], b);
      ShownBelow(c, ds[n]);
      ParseMeans(text[..n], ds[..n], "", b, signed);
      assert text[..n] + "" == text[..n] && text[..n] + [c] == text;
      ParseAppend(text, rest, b, 0, signed);
      ParseAppend(text[..n], [c], b, 0, signed);
      ParseOne(c, b, ParseFrom(text[..n], b, 0, signed), signed);
      WrapTwice(ParseFrom(text[..n], b, 0, signed), Value(ds[..n], b), b, ds[n], signed);
      if rest != "" { NoDigit(rest[0], b); }
    }
  }

  lemma NoDigit(c: char, b: nat)
    requires forall d :: 0 <= d < b ==> !Shows(c, d)
    ensures !IsDigit(c, b)
  {
    if IsDigit(c, b) { ShownValue(c, DigitValue(c)); }
  }

  lemma AllShown(text: string, ds: seq<nat>, b: nat)
    requires |text| == |ds| && forall i :: 0 <= i < |ds| ==> ds[i] < b && Shows(text[i], ds[i])
    ensures AllDigits(text, b)
  {
    forall i | 0 <= i < |text| ensures IsDigit(text[i], b) { ShownValue(text[i], ds[i]); }
  }

  /** Spaces in front are skipped, and a sign behind them is taken for the negative number. */
  lemma SpacesAndSign(s: string, b: nat)
    ensures ParseUll(" " + s, b) == ParseUll(s, b) && ParseLl(" " + s, b) == ParseLl(s, b)
    ensures s != "" && s[0] != ' ' && s[0] != '-' ==> ParseLl("-" + s, b) == Wrap(-ParseLl(s, b), true)
  {
    assert (" " + s)[1..] == s && ("-" + s)[1..] == s;
  }

  /** With base 0 a number is read in the base its prefix shows: none for ten, 0x or 0X for sixteen, 0 for eight. */
  lemma BaseByPrefix(n: nat)
    requires n < UINT64
    ensures ParseUll(UllText(n, 10), 0) == n
    ensures ParseUll("0x" + UllText(n, 16), 0) == n && ParseUll("0X" + UllText(n, 16), 0) == n
    ensures ParseUll("0" + UllText(n, 8), 0) == n
  {
    hide UllText, ParseFrom;
    PrefixRead(n, false);
  }

  /** The same behind a sign. */
  lemma SignedByPrefix(n: nat, minus: bool)
    requires n < 0x8000_0000_0000_0000
    ensures var sign, m: int := if minus then "-" else "", if minus then -(n as int) else n;
      && ParseLl(sign + UllText(n, 10), 0) == m
      && ParseLl(sign + "0x" + UllText(n, 16), 0) == m && ParseLl(sign + "0X" + UllText(n, 16), 0) == m
      && ParseLl(sign + "0" + UllText(n, 8), 0) == m
  {
    hide UllText, ParseFrom, Wrap;
    PrefixRead(n, true);
    WrapFits(n, true);
    if minus {
      assert ("-" + UllText(n, 10))[1..] == UllText(n, 10);
      assert ("-" + "0x" + UllText(n, 16))[1..] == "0x" + UllText(n, 16);
      assert ("-" + "0X" + UllText(n, 16))[1..] == "0X" + UllText(n, 16);
      assert ("-" + "0" + UllText(n, 8))[1..] == "0" + UllText(n, 8);
    } else {
      assert "" + UllText(n, 10) == UllText(n, 10);
      assert "" + "0x" + UllText(n, 16) == "0x" + UllText(n, 16);
      assert "" + "0X" + UllText(n, 16) == "0X" + UllText(n, 16);
      assert "" + "0" + UllText(n, 8) == "0" + UllText(n, 8);
    }
  }

  lemma PrefixRead(n: nat, signed: bool)
    requires n < if signed then 0x8000_0000_0000_0000 else UINT64
    ensures UllText(n, 10) != "" && UllText(n, 10)[0] != ' ' && UllText(n, 10)[0] != '-'
    ensures var (b, s) := ChooseBase(UllText(n, 10), 0); ParseFrom(s, b, 0, signed) == n
    ensures var (b, s) := ChooseBase("0x" + UllText(n, 16), 0); ParseFrom(s, b, 0, signed) == n
    ensures var (b, s) := ChooseBase("0X" + UllText(n, 16), 0); ParseFrom(s, b, 0, signed) == n
    ensures var (b, s) := ChooseBase("0" + UllText(n, 8), 0); ParseFrom(s, b, 0, signed) == n
  {
    hide UllText, Digits;
    UllTextParses(n, 10, signed);
    UllTextParses(n, 16, signed);
    UllTextParses(n, 8, signed);
    LeadingZeroIff(n, 10);
    assert ("0x" + UllText(n, 16))[2..] == UllText(n, 16) && ("0X" + UllText(n, 16))[2..] == UllText(n, 16);
    assert ("0" + UllText(n, 8))[1..] == UllText(n, 8);
    ZeroText();
    NotX(n);
  }

  lemma ZeroText()
    ensures UllText(0, 10) == "0" && "0"[1..] == "" && ParseFrom("", 8, 0, false) == 0 == ParseFrom("", 8, 0, true)
  {
  }

  lemma NotX(n: nat)
    ensures UllText(n, 8) != "" && UllText(n, 8)[0] != 'x' && UllText(n, 8)[0] != 'X'
  {
    if n > 0 { LookupChar(Digits(n, 8)[0]); }
  }

  lemma DigitsUnfold(n: nat, b: nat)
    requires n > 0 && b >= 2
    ensures n / b < n && n == n / b * b + n % b
    ensures Digits(n, b) == Digits(n / b, b) + [n % b]
    ensures n / b == 0 ==> Digits(n / b, b) == [] && n % b == n
    ensures n / b > 0 ==> Digits(n / b, b) != []
  {
    DivStep(n, b);
  }

  /** No leading zero, unless the number is zero. */
  lemma FirstDigit(n: nat, b: nat)
    requires n > 0 && b >= 2
    ensures n / b < n && Digits(n, b) != []
    ensures if n / b == 0 then Digits(n, b) == [n] else Digits(n / b, b) != [] && Digits(n, b)[0] == Digits(n / b, b)[0]
  {
    hide Digits;
    DigitsUnfold(n, b);
  }

  lemma {:induction false} NoLeadingZero(n: nat, b: nat)
    requires n > 0 && 2 <= b <= 36
    ensures Digits(n, b)[0] != 0
    decreases n
  {
    hide Digits;
    FirstDigit(n, b);
    if n / b > 0 { NoLeadingZero(n / b, b); }
  }

  /** The printed text of a number starts with 0 exactly when the number is zero. */
  lemma LeadingZeroIff(n: nat, b: nat)
    requires 2 <= b <= 36
    ensures UllText(n, b) != "" && (UllText(n, b)[0] == '0' <==> n == 0)
  {
    hide Digits;
    if n > 0 {
      DigitsUnfold(n, b);
      NoLeadingZero(n, b);
      LookupDigit(Digits(n, b)[0]);
      assert DigitValue('0') == 0;
    }
  }

  lemma QuotientHalves(n: nat, b: nat, bound: nat)
    requires n < 2 * bound && b >= 2
    ensures n / b < bound
  {
    assert n / b * b <= n;
    assert n / b * 2 <= n / b * b;
  }

  /** A number below 2^k has at most k digits, in any base. */
  lemma {:induction false} DigitsLength(n: nat, b: nat, k: nat)
    requires b >= 2 && n < Bits.Pow2(k)
    ensures |Digits(n, b)| <= k
    decreases k
  {
    hide Digits;
    if n == 0 {
      NoDigits(b);
    } else {
      assert k > 0 by { assert Bits.Pow2(0) == 1; }
      DigitsUnfold(n, b);
      QuotientHalves(n, b, Bits.Pow2(k - 1));
      DigitsLength(n / b, b, k - 1);
    }
  }

  /** The texts of 64-bit numbers are at most 64 digits and a sign long, so a 16-bit index is enough for them. */
  lemma TextLengths(n: int, b: nat)
    requires 2 <= b <= 36 && INT64_MIN < n < UINT64
    ensures n >= 0 ==> |UllText(n, b)| <= 64
    ensures |LlText(n, b)| <= 65
  {
    hide Digits;
    Bits.Pow2Constants();
    DigitsLength(if n < 0 then -n else n, b, 64);
  }

  lemma SmallQuotient(n: nat, b: nat)
    requires n < b
    ensures n / b == 0
  {
  }

  /** From base 17 on, sixteen prints as G and comes back as zero. */
  lemma SixteenIsLost(b: nat)
    requires 17 <= b <= 36
    ensures UllText(16, b) == "G" && ParseUll("G", b) == 0
  {
    hide Digits;
    DigitsUnfold(16, b);
    SmallQuotient(16, b);
    assert Text([16]) == "G" && DigitValue('G') == 16;
  }

  // ----- the code -----------------------------------------------------------------------------

  function Reversed(s: string): (r: string)
    ensures |r| == |s|
    ensures forall i :: 0 <= i < |s| ==> r[i] == s[|s| - 1 - i]
  {
    if s == "" then "" else Reversed(s[1..]) + [s[0]]
  }

  lemma {:induction false} ReversedAppend(s: string, c: char)
    ensures Reversed(s + [c]) == [c] + Reversed(s)
    decreases |s|
  {
    if s != "" {
      assert (s + [c])[1..] == s[1..] + [c];
      ReversedAppend(s[1..], c);
      assert [c] + Reversed(s[1..]) + [s[0]] == [c] + Reversed(s);
    } else {
      assert (s + [c])[1..] == "";
    }
  }

  /** strrev, whose indices are 16 bits wide. */
  method Reverse(buffer: array<char>, ghost s: string)
    requires Holds(buffer[..], s) && 0 < |s| < 0x1_0000
    modifies buffer
    ensures Holds(buffer[..], Reversed(s))
  {
    var n := Length(buffer, s);
    var start, end := 0, n - 1;
    ghost var before := buffer[..];
    while start < end
      invariant 0 <= start <= n && end == n - 1 - start
      invariant start <= end + 1
      invariant buffer.Length == |before| && forall k :: n <= k < buffer.Length ==> buffer[k] == before[k]
      invariant forall k :: 0 <= k < n ==> buffer[k] == before[if k < start || k > end then n - 1 - k else k]
    {
      var character := buffer[start];
      buffer[start] := buffer[end];
      buffer[end] := character;
      start := start + 1;
      end := end - 1;
    }
    forall k | 0 <= k < n ensures buffer[..][..n][k] == Reversed(s)[k] {
      assert before[..n][n - 1 - k] == s[n - 1 - k];
    }
    assert buffer[..][..n] == Reversed(s);
    forall c | c in Reversed(s) ensures c != '\0' {
      var i :| 0 <= i < |s| && Reversed(s)[i] == c;
      assert s[|s| - 1 - i] in s;
    }
  }

  /** number / base and number % base. */
  function Quotient(n: nat, base: nat): nat
    requires base > 0
  {
    n / base
  }

  function Remainder(n: nat, base: nat): nat
    requires base > 0
  {
    n % base
  }

  lemma Division(n: nat, base: nat)
    requires n > 0 && 2 <= base <= 36
    ensures Quotient(n, base) < n && Remainder(n, base) < 36
    ensures Digits(n, base) != [] && Digits(n, base) == Digits(Quotient(n, base), base) + [Remainder(n, base)]
  {
    hide Digits;
    DigitsUnfold(n, base);
    DigitsBelow36(n, base);
  }

  /** One round moves a digit from the number to the digits written. */
  lemma DigitRound(n: nat, base: nat, done: seq<nat>)
    requires n > 0 && 2 <= base <= 36 && Below36(done)
    ensures Quotient(n, base) < n && Remainder(n, base) < 36
    ensures Digits(n, base) != []
      && Digits(n, base) + done == Digits(Quotient(n, base), base) + ([Remainder(n, base)] + done)
    ensures Below36([Remainder(n, base)] + done)
    ensures Reversed(Text([Remainder(n, base)] + done)) == Reversed(Text(done)) + [LOOKUP[Remainder(n, base)]]
  {
    hide Digits, Text, Reversed, Quotient, Remainder;
    Division(n, base);
    TextCons(Remainder(n, base), done);
    LastMoves(Digits(Quotient(n, base), base), Remainder(n, base), done);
  }

  /** The digit loop of both printers: digits come out least significant first. */
  method PutDigits(number: nat, buffer: array<char>, base: nat) returns (i: nat)
    requires 2 <= base <= 36 && |Digits(number, base)| <= buffer.Length
    modifies buffer
    ensures i == |Digits(number, base)|
    ensures buffer[..i] == Reversed(Text(Digits(number, base)))
  {
    hide Digits, Text, Reversed, Quotient, Remainder, Below36;
    var n: nat := number;
    i := 0;
    ghost var done: seq<nat> := [];
    NoDigits(base);
    while n != 0
      invariant Below36(done) && Digits(number, base) == Digits(n, base) + done
      invariant i == |done| && i <= buffer.Length && buffer[..i] == Reversed(Text(done))
    {
      DigitRound(n, base, done);
      var digit := Remainder(n, base);
      PutChar(buffer, i, LOOKUP[digit]);
      done := [digit] + done;
      n := Quotient(n, base);
      i := i + 1;
    }
  }

  /** buffer[i] = c */
  method PutChar(buffer: array<char>, i: nat, c: char)
    requires i < buffer.Length
    modifies buffer
    ensures buffer[..i + 1] == old(buffer[..i]) + [c]
  {
    buffer[i] := c;
  }

  lemma NoDigits(b: nat)
    requires b >= 2
    ensures Digits(0, b) == [] && Reversed(Text([])) == "" && Below36([])
    ensures forall ds: seq<nat> :: [] + ds == ds == ds + []
  {
  }

  lemma LastMoves(ds: seq<nat>, d: nat, rest: seq<nat>)
    ensures ds + [d] + rest == ds + ([d] + rest)
  {
  }

  lemma DigitsBelow36(n: nat, b: nat)
    requires n > 0 && 2 <= b <= 36
    ensures n % b < 36
  {
    DivStep(n, b);
  }

  lemma TextCons(d: nat, ds: seq<nat>)
    requires d < 36 && Below36(ds)
    ensures Below36([d] + ds)
    ensures Reversed(Text([d] + ds)) == Reversed(Text(ds)) + [LOOKUP[d]]
  {
    assert Text([d] + ds) == [LOOKUP[d]] + Text(ds);
    assert ([LOOKUP[d]] + Text(ds))[1..] == Text(ds);
  }

  lemma {:induction false} ReversedTwice(s: string)
    ensures Reversed(Reversed(s)) == s
    decreases |s|
  {
    if s != "" {
      ReversedAppend(Reversed(s[1..]), s[0]);
      ReversedTwice(s[1..]);
      assert [s[0]] + s[1..] == s;
    }
  }

  lemma TextPlain(ds: seq<nat>)
    requires Below36(ds)
    ensures '\0' !in Text(ds) && '\0' !in Reversed(Text(ds))
  {
    forall k | 0 <= k < |ds| ensures Text(ds)[k] != '\0' { LookupDigit(ds[k]); }
    forall k | 0 <= k < |ds| ensures Reversed(Text(ds))[k] != '\0' { assert Text(ds)[|ds| - 1 - k] != '\0'; }
  }

  /** ull_to_str: the text and its length, or -1 for a base out of range. */
  method UllToStr(number: nat, buffer: array<char>, base: nat) returns (length: int)
    requires number < UINT64
    requires 2 <= base <= 36 ==> |UllText(number, base)| < buffer.Length
    modifies buffer
    ensures !(2 <= base <= 36) ==> length == -1 && buffer[..] == old(buffer[..])
    ensures 2 <= base <= 36 ==> Holds(buffer[..], UllText(number, base)) && length == |UllText(number, base)|
  {
    hide Digits, Text, Reversed, Holds;
    if base < 2 || base > 36 {
      return -1;
    }
    if number == 0 {
      CopyWhole(buffer, "0");
      return 1;
    }
    ghost var text := UllText(number, base);
    TextLengths(number, base);
    DigitsUnfold(number, base);
    DigitsAll36(number, base);
    TextPlain(Digits(number, base));
    var i := PutDigits(number, buffer, base);
    EndString(buffer, i, Reversed(text));
    Reverse(buffer, Reversed(text));
    ReversedTwice(text);
    return i;
  }

  lemma DigitsAll36(n: nat, b: nat)
    requires 2 <= b <= 36
    ensures Below36(Digits(n, b))
  {
  }

  /** buffer[i] = '\\0' */
  method EndString(buffer: array<char>, i: nat, ghost s: string)
    requires i == |s| < buffer.Length && buffer[..i] == s && '\0' !in s
    modifies buffer
    ensures Holds(buffer[..], s)
  {
    buffer[i] := '\0';
  }

  /** ll_to_str; the least number has no negation and is left out. */
  method LlToStr(number: int, buffer: array<char>, base: nat) returns (length: int)
    requires INT64_MIN < number < 0x8000_0000_0000_0000
    requires 2 <= base <= 36 ==> |LlText(number, base)| < buffer.Length
    modifies buffer
    ensures !(2 <= base <= 36) ==> length == -1 && buffer[..] == old(buffer[..])
    ensures 2 <= base <= 36 ==> Holds(buffer[..], LlText(number, base)) && length == |LlText(number, base)|
  {
    hide Digits, Text, Reversed, Holds;
    if base < 2 || base > 36 {
      return -1;
    }
    if number == 0 {
      CopyWhole(buffer, "0");
      return 1;
    }
    var magnitude := if number < 0 then -number else number;
    ghost var digits := UllText(magnitude, base);
    TextLengths(number, base);
    DigitsUnfold(magnitude, base);
    DigitsAll36(magnitude, base);
    TextPlain(Digits(magnitude, base));
    var i := PutDigits(magnitude, buffer, base);
    if number < 0 {
      ReversedPrepend('-', digits);
      PutSign(buffer, i, Reversed(digits));
      i := i + 1;
    }
    EndString(buffer, i, Reversed(LlText(number, base)));
    Reverse(buffer, Reversed(LlText(number, base)));
    ReversedTwice(LlText(number, base));
    return i;
  }

  method PutSign(buffer: array<char>, i: nat, ghost s: string)
    requires i == |s| < buffer.Length && buffer[..i] == s && '\0' !in s
    modifies buffer
    ensures buffer[..i + 1] == s + "-" && '\0' !in s + "-"
  {
    buffer[i] := '-';
    assert buffer[..i + 1] == buffer[..i] + ['-'];
  }

  lemma ReversedPrepend(c: char, s: string)
    ensures Reversed([c] + s) == Reversed(s) + [c] && |Reversed([c] + s)| == |s| + 1 && |Reversed(s)| == |s|
  {
    assert ([c] + s)[1..] == s;
  }

  /** string[i], where the terminator follows the text. */
  function CharAt(s: string, i: nat): char {
    if i < |s| then s[i] else '\0'
  }

  /** while (string[i] == ' ') */
  method PassSpaces(s: string) returns (i: nat)
    ensures i <= |s| && s[i..] == SkipSpaces(s)
  {
    i := 0;
    while CharAt(s, i) == ' '
      invariant i <= |s| && SkipSpaces(s[i..]) == SkipSpaces(s)
      decreases |s| - i
    {
      assert s[i..][1..] == s[i + 1..];
      i := i + 1;
    }
  }

  /** Base 0 is replaced by the base the text shows, and its prefix passed. */
  method ReadBase(s: string, start: nat, base: nat) returns (b: nat, i: nat)
    requires start <= |s|
    ensures i <= |s| && (b, s[i..]) == ChooseBase(s[start..], base)
  {
    b, i := base, start;
    if base == 0 {
      if CharAt(s, i) == '0' {
        if CharAt(s, i + 1) == 'x' || CharAt(s, i + 1) == 'X' {
          b, i := 16, i + 2;
          assert s[start..][2..] == s[i..];
        } else {
          b, i := 8, i + 1;
          assert s[start..][1..] == s[i..];
        }
      } else {
        b := 10;
      }
    }
  }

  /** The digit loop of both parsers, up to the first character that is no digit of the base. */
  method ReadDigits(s: string, start: nat, base: nat, signed: bool) returns (number: int)
    requires start <= |s|
    ensures number == ParseFrom(s[start..], base, 0, signed)
  {
    hide Wrap;
    number := 0;
    var i := start;
    while i < |s|
      invariant start <= i <= |s|
      invariant ParseFrom(s[i..], base, number, signed) == ParseFrom(s[start..], base, 0, signed)
    {
      var digit := DigitValue(s[i]);
      if digit == 16 || digit >= base {
        break;
      }
      assert s[i..][1..] == s[i + 1..];
      number := Wrap(number * base + digit, signed);
      i := i + 1;
    }
  }

  /** str_to_ull, whose index is 16 bits wide. */
  method StrToUll(s: string, base: nat) returns (number: int)
    requires |s| < 0x1_0000 && '\0' !in s && base < 0x100
    ensures number == ParseUll(s, base)
  {
    hide ParseFrom, SkipSpaces, ChooseBase;
    var i := PassSpaces(s);
    var b, j := ReadBase(s, i, base);
    number := ReadDigits(s, j, b, false);
  }

  /** str_to_ll */
  method StrToLl(s: string, base: nat) returns (number: int)
    requires '\0' !in s && base < 0x100
    ensures number == ParseLl(s, base)
  {
    hide ParseFrom, SkipSpaces, ChooseBase, Wrap;
    var i := PassSpaces(s);
    var negative := false;
    if CharAt(s, i) == '-' {
      negative := true;
      assert s[i..][1..] == s[i + 1..];
      i := i + 1;
    }
    var b, j := ReadBase(s, i, base);
    number := ReadDigits(s, j, b, true);
    if negative {
      number := Wrap(-number, true);
    }
  }

  /** Printing into a buffer and parsing what it holds. */
  method PrintThenParse(n: int, buffer: array<char>, base: nat) returns (back: int)
    requires INT64_MIN < n < 0x8000_0000_0000_0000 && 2 <= base <= 16
    requires |LlText(n, base)| < buffer.Length
    modifies buffer
    ensures back == n
  {
    hide ParseLl, LlText, Digits;
    var length := LlToStr(n, buffer, base);
    LlRoundTrip(n, base);
    back := StrToLl(buffer[..length], base);
  }
}
