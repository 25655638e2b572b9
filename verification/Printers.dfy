/** The two number printers of the HAL: the integer part of the log printer, which divides by powers of the
    base, and the %x directive of alt_printf, which shifts and masks. What they print is returned as text. */
module Printers {
  import opened Arithmetic
  import opened Numerals

  const WORD := 0x1_0000_0000
  type U32 = x: int | 0 <= x < WORD

  // ----- what should be printed ---------------------------------------------------------------

  predicate Negative(v: U32, signed: bool) {
    signed && v >= 0x8000_0000
  }

  function Magnitude(v: U32, signed: bool): nat {
    if Negative(v, signed) then WORD - v else v
  }

  /** The number a 32-bit argument stands for. */
  function Meaning(v: U32, signed: bool): int {
    if Negative(v, signed) then v - WORD else v
  }

  function Rep(c: char, n: int): (s: string)
    ensures |s| == if n > 0 then n else 0
    ensures forall i :: 0 <= i < |s| ==> s[i] == c
    decreases if n > 0 then n else 0
  {
    if n <= 0 then "" else Rep(c, n - 1) + [c]
  }

  /** A numeral with its sign, padded to the width: zeros go after the sign, blanks before it. */
  function Layout(negative: bool, numeral: string, width: int, zeros: bool): string {
    var sign := if negative then "-" else "";
    var missing := width - |sign| - |numeral|;
    if zeros then sign + Rep('0', missing) + numeral else Rep(' ', missing) + sign + numeral
  }

  // ----- the log printer ----------------------------------------------------------------------

  /** alt_log_repchar. */
  method RepChar(c: char, r: int) returns (out: string)
    ensures out == Rep(c, r)
  {
    out := "";
    var left := r;
    while left > 0
      invariant left <= r || left == r
      invariant out == Rep(c, if r > 0 then r - left else 0)
      invariant left >= 0 || left == r
    {
      left := left - 1;
      out := out + [c];
    }
  }

  /** Counts the digits and finds the largest place value, which never overflows a word. */
  method CountDigits(v: U32, base: nat) returns (count: nat, p: U32)
    requires 2 <= base <= 16
    ensures count == |Digits(v, base)| && p == Pow(base, count - 1)
  {
    var shrunk: U32 := v;
    count, p := 1, 1;
    ghost var ds := Digits(v, base);
    assert ds[..|ds| - 0] == ds;
    shrunk := Quotient(shrunk, base);
    while shrunk > 0
      invariant 1 <= count <= |ds| && p == Pow(base, count - 1)
      invariant if shrunk > 0 then count < |ds| && Digits(shrunk, base) == ds[..|ds| - count] else count == |ds|
      decreases shrunk
    {
      PlaceFits(v, base, count);
      count := count + 1;
      p := p * base;
      ghost var was := shrunk;
      shrunk := Quotient(shrunk, base);
    }
  }

  method Quotient(v: U32, base: nat) returns (q: U32)
    requires 2 <= base <= 16
    ensures if v < base then q == 0 && Digits(v, base) == [v]
            else 0 < q < v && Digits(v, base) == Digits(q, base) + [v % base]
  {
    if v < base {
      DivOfSum(0, base, v);
    } else {
      DivShrinks(v, base);
    }
    q := v / base;
  }

  lemma PlaceFits(v: U32, base: nat, count: nat)
    requires 2 <= base && v > 0 && count < |Digits(v, base)|
    ensures Pow(base, count) <= v
  {
    TopPlace(v, base);
    PowMono(base, count, |Digits(v, base)| - 1);
  }

  /** One digit character, computed as the source does. */
  method DigitChar(d: nat, upper: bool) returns (c: char)
    requires d < 16
    ensures c == Digit(d, upper)
  {
    c := '0' + d as char;
    if c > '9' {
      c := c + ((if upper then 'A' else 'a') as int - '0' as int - 10) as char;
    }
  }

  /** One turn of the division loop: splits the top digit off `v`, whose digits are `ds`. */
  method TopDigit(v: U32, p: U32, base: nat, upper: bool, ghost ds: seq<nat>)
    returns (c: char, rest: U32, place: U32)
    requires 2 <= base <= 16 && ds != [] && InBase(ds, base)
    requires v == Value(ds, base) && p == Pow(base, |ds| - 1)
    ensures c == Digit(ds[0], upper) && rest == Value(ds[1..], base)
    ensures place == if |ds| == 1 then 0 else Pow(base, |ds| - 2)
  {
    SplitTop(ds, base);
    NextPlace(base, |ds| - 1);
    c := DigitChar(v / p, upper);
    rest := v % p;
    place := p / base;
  }

  lemma SpellNext(out: string, ds: seq<nat>, base: nat, upper: bool)
    requires 2 <= base <= 16 && ds != [] && InBase(ds, base)
    ensures InBase(ds[1..], base)
    ensures (out + [Digit(ds[0], upper)]) + Spell(ds[1..], upper) == out + Spell(ds, upper)
  {
  }

  /** The division loop: prints `v` from place value `p` down. */
  method PrintDigits(v: U32, p: U32, base: nat, upper: bool) returns (out: string)
    requires 2 <= base <= 16 && p == Pow(base, |Digits(v, base)| - 1)
    ensures out == Text(v, base, upper)
  {
    DigitsOf(v, base);
    ghost var all := Digits(v, base);
    ghost var ds := all;
    out := "";
    var rest, place := v, p;
    while place > 0
      invariant InBase(ds, base) && rest == Value(ds, base)
      invariant place == if ds == [] then 0 else Pow(base, |ds| - 1)
      invariant out + Spell(ds, upper) == Spell(all, upper)
      decreases |ds|
    {
      var c;
      c, rest, place := TopDigit(rest, place, base, upper, ds);
      SpellNext(out, ds, base, upper);
      out := out + [c];
      ds := ds[1..];
    }
  }

  /** The leading characters and the sign, when the digits leave `missing` places of the width. */
  method Lead(sign: bool, missing: int, zeros: bool) returns (out: string)
    ensures var minus := if sign then "-" else "";
            out == if zeros then minus + Rep('0', missing - |minus|) else Rep(' ', missing - |minus|) + minus
  {
    var before := missing;
    if zeros {
      out := "";
      if sign {
        out := "-";
        before := before - 1;
      }
      var pad := RepChar('0', before);
      out := out + pad;
    } else {
      if sign {
        before := before - 1;
      }
      out := RepChar(' ', before);
      if sign {
        out := out + "-";
      }
    }
  }

  /** Strips the sign off a word: two's complement negation, within the word. */
  method StripSign(arg: U32, signed: bool) returns (v: U32, sign: bool)
    ensures sign == Negative(arg, signed) && v == Magnitude(arg, signed)
  {
    v, sign := arg, false;
    if signed && v >= 0x8000_0000 {
      v := (WORD - 1 - v + 1) % WORD;
      sign := true;
    }
  }

  /** The integer part of alt_log_private_printf: `width` is the number before the point, -1 if none. */
  method PrintInteger(arg: U32, width: int, zeros: bool, base: nat, signed: bool, upper: bool)
    returns (out: string)
    requires 2 <= base <= 16
    ensures out == Layout(Negative(arg, signed), Text(Magnitude(arg, signed), base, upper), width, zeros)
    ensures Printed(out, if signed && arg >= 0x8000_0000 then arg - 0x1_0000_0000 else arg, width, zeros, base, upper)
  {
    LayoutPrinted(arg, width, zeros, base, signed, upper);
    var v, sign := StripSign(arg, signed);
    var digitCount, p := CountDigits(v, base);
    var lead := Lead(sign, width - digitCount, zeros);
    var digits := PrintDigits(v, p, base, upper);
    out := lead + digits;
  }

  // ----- alt_printf ---------------------------------------------------------------------------

  /** v & (0xF << shift): the four bits from `shift` on, in place. */
  function FourBits(v: U32, shift: nat): nat {
    v / Pow(2, shift) % 16 * Pow(2, shift)
  }

  lemma {:induction false} Pow16(k: nat)
    ensures Pow(2, 4 * k) == Pow(16, k)
  {
    if k > 0 {
      Pow16(k - 1);
      var n := 4 * k;
      assert Pow(2, n) == 2 * Pow(2, n - 1) == 4 * Pow(2, n - 2) == 8 * Pow(2, n - 3) == 16 * Pow(2, n - 4);
    }
  }

  /** The digit of `v` at place `k`, zero above its top digit. */
  ghost function DigitAt(v: U32, k: nat): nat {
    var ds := Digits(v, 16);
    if k < |ds| then ds[|ds| - 1 - k] else 0
  }

  lemma LastDigit(ds: seq<nat>, base: nat)
    requires ds != [] && base > 0 && InBase(ds, base)
    ensures Value(ds, base) % base == ds[|ds| - 1]
  {
    var n := |ds| - 1;
    assert ds == ds[..n] + [ds[n]];
    ValueSnoc(ds[..n], ds[n], base);
    DivOfSum(Value(ds[..n], base), base, ds[n]);
  }

  lemma PlaceDigit(v: U32, k: nat)
    ensures v / Pow(16, k) % 16 == DigitAt(v, k)
  {
    var ds := Digits(v, 16);
    DigitsOf(v, 16);
    if k < |ds| {
      DropLow(ds, k, 16);
      LastDigit(ds[..|ds| - k], 16);
    } else {
      AboveTop(v, k);
    }
  }

  lemma AboveTop(v: U32, k: nat)
    requires |Digits(v, 16)| <= k
    ensures v / Pow(16, k) == 0
  {
    var ds := Digits(v, 16);
    DigitsOf(v, 16);
    ValueBound(ds, 16);
    PowMono(16, |ds|, k);
    DivOfSum(0, Pow(16, k), v);
  }

  lemma ShiftBack(q: nat, p: nat)
    requires p > 0
    ensures q * p / p == q && (q * p == 0 <==> q == 0)
  {
    DivOfSum(q, p, 0);
    if q > 0 {
      MulAtLeast(q, p);
    }
  }

  /** The bits at place `k`, shifted down, are the digit there. */
  lemma BitsAreDigit(v: U32, k: nat)
    ensures FourBits(v, 4 * k) / Pow(2, 4 * k) == DigitAt(v, k)
    ensures FourBits(v, 4 * k) == 0 <==> DigitAt(v, k) == 0
  {
    Pow16(k);
    PlaceDigit(v, k);
    ShiftBack(DigitAt(v, k), Pow(2, 4 * k));
  }

  lemma PowWord()
    ensures Pow(16, 8) == WORD
  {
    assert Pow(16, 4) == 0x1_0000;
  }

  /** A word has at most eight hexadecimal digits. */
  lemma EightDigits(v: U32)
    ensures |Digits(v, 16)| <= 8
  {
    PowWord();
    if |Digits(v, 16)| > 8 {
      TopPlace(v, 16);
      PowMono(16, 8, |Digits(v, 16)| - 1);
    }
  }

  /** The search for the first non-zero digit ends at the top digit. */
  method FirstShift(v: U32) returns (shift: int)
    requires v > 0
    ensures shift == 4 * (|Digits(v, 16)| - 1)
  {
    DigitsOf(v, 16);
    EightDigits(v);
    ghost var n := |Digits(v, 16)|;
    shift := 28;
    ghost var k: nat := 7;
    BitsAreDigit(v, k);
    while FourBits(v, shift) == 0
      invariant shift == 4 * k && n <= k + 1
      invariant FourBits(v, shift) == 0 <==> DigitAt(v, k) == 0
      decreases k
    {
      shift, k := shift - 4, k - 1;
      BitsAreDigit(v, k);
    }
  }

  /** One turn of the printing loop; `printed` are the digits printed, `left` those to print. */
  method ShiftedDigit(v: U32, shift: nat, ghost printed: seq<nat>, ghost left: seq<nat>) returns (c: char)
    requires left != [] && Digits(v, 16) == printed + left && InBase(left, 16)
    requires shift == 4 * (|left| - 1)
    ensures c == Digit(left[0], false)
  {
    BitsAreDigit(v, |left| - 1);
    assert DigitAt(v, |left| - 1) == left[0];
    var digit := FourBits(v, shift) / Pow(2, shift);
    if digit <= 9 {
      c := '0' + digit as char;
    } else {
      c := 'a' + (digit - 10) as char;
    }
  }

  lemma MoveOne(a: seq<nat>, b: seq<nat>)
    requires b != []
    ensures a + b == (a + [b[0]]) + b[1..]
  {
  }

  /** The printing loop, from the top digit of `all` down. */
  method PrintShifted(v: U32, first: int, ghost all: seq<nat>) returns (out: string)
    requires all == Digits(v, 16) && first == 4 * (|all| - 1) && InBase(all, 16)
    ensures out == Spell(all, false)
  {
    ghost var printed, left := [], all;
    assert all == printed + left;
    var shift := first;
    out := "";
    while shift >= 0
      invariant all == printed + left && InBase(left, 16)
      invariant shift == 4 * (|left| - 1)
      invariant out + Spell(left, false) == Spell(all, false)
      decreases |left|
    {
      var c := ShiftedDigit(v, shift, printed, left);
      MoveOne(printed, left);
      SpellNext(out, left, 16, false);
      out := out + [c];
      printed, left := printed + [left[0]], left[1..];
      shift := shift - 4;
    }
  }

  /** The %x directive of alt_printf: finds the first non-zero digit, then prints from there down. */
  method PrintHex(v: U32) returns (out: string)
    ensures out == Text(v, 16, false) && InCase(out, false)
  {
    TextInCase(v, 16, false);
    DigitsOf(v, 16);
    if v == 0 {
      TextReadsBack(0, 16, false);
      out := "0";
    } else {
      var shift := FirstShift(v);
      out := PrintShifted(v, shift, Digits(v, 16));
    }
  }

  // ----- what the text means ------------------------------------------------------------------

  function SkipBlanks(s: string): string {
    if s != "" && s[0] == ' ' then SkipBlanks(s[1..]) else s
  }

  /** Reads blanks, an optional sign, then digits. */
  function ReadInt(s: string, base: nat): int {
    var t := SkipBlanks(s);
    if t != "" && t[0] == '-' then -Parse(t[1..], base) else Parse(t, base)
  }

  lemma {:induction false} SkipsPadding(n: int, t: string)
    requires t == "" || t[0] != ' '
    ensures SkipBlanks(Rep(' ', n) + t) == t
    decreases if n > 0 then n else 0
  {
    if n <= 0 {
      assert "" + t == t;
    } else {
      var s := Rep(' ', n) + t;
      assert s[1..] == Rep(' ', n - 1) + t;
      SkipsPadding(n - 1, t);
    }
  }

  lemma {:induction false} ZerosDoNotCount(n: int, t: string, base: nat)
    ensures Parse(Rep('0', n) + t, base) == Parse(t, base)
    decreases |t|, if n > 0 then n else 0
  {
    if t != "" {
      var m := |t| - 1;
      assert (Rep('0', n) + t)[..|Rep('0', n) + t| - 1] == Rep('0', n) + t[..m];
      ZerosDoNotCount(n, t[..m], base);
    } else if n > 0 {
      assert Rep('0', n) + "" == Rep('0', n) && Rep('0', n)[..n - 1] == Rep('0', n - 1) == Rep('0', n - 1) + "";
      ZerosDoNotCount(n - 1, "", base);
    } else {
      assert Rep('0', n) + t == "";
    }
  }

  lemma ReadsSigned(negative: bool, body: string, base: nat)
    requires body != "" && body[0] != ' ' && body[0] != '-'
    ensures ReadInt((if negative then "-" else "") + body, base)
         == if negative then -Parse(body, base) else Parse(body, base)
  {
    if negative {
      assert ("-" + body)[0] == '-' && ("-" + body)[1..] == body;
    } else {
      assert "" + body == body;
    }
  }

  lemma ReadsZeros(negative: bool, n: int, numeral: string, base: nat)
    requires 2 <= base && Canonical(numeral, base)
    ensures ReadInt((if negative then "-" else "") + Rep('0', n) + numeral, base)
         == if negative then -Parse(numeral, base) else Parse(numeral, base)
  {
    var sign := if negative then "-" else "";
    assert sign + Rep('0', n) + numeral == sign + (Rep('0', n) + numeral);
    ZerosDoNotCount(n, numeral, base);
    assert DigitValue(numeral[0]) >= 0;
    ReadsSigned(negative, Rep('0', n) + numeral, base);
  }

  lemma ReadsBlanks(negative: bool, n: int, numeral: string, base: nat)
    requires 2 <= base && Canonical(numeral, base)
    ensures ReadInt(Rep(' ', n) + (if negative then "-" else "") + numeral, base)
         == if negative then -Parse(numeral, base) else Parse(numeral, base)
  {
    var t := (if negative then "-" else "") + numeral;
    assert Rep(' ', n) + (if negative then "-" else "") + numeral == Rep(' ', n) + t;
    assert DigitValue(numeral[0]) >= 0;
    assert t[0] != ' ' && SkipBlanks(t) == t;
    SkipsPadding(n, t);
    ReadsSigned(negative, numeral, base);
  }

  /** For every word, every base and both paddings, what the log printer prints reads back as the number
      meant, -2^31 included, and fills the width unless sign and digits need more. */
  lemma PrintedReadsBack(arg: U32, width: int, zeros: bool, base: nat, signed: bool, upper: bool)
    requires 2 <= base <= 16
    ensures var numeral := Text(Magnitude(arg, signed), base, upper);
            var out := Layout(Negative(arg, signed), numeral, width, zeros);
            var needed := |numeral| + if Negative(arg, signed) then 1 else 0;
            && ReadInt(out, base) == Meaning(arg, signed)
            && |out| == (if width > needed then width else needed)
  {
    var numeral, negative := Text(Magnitude(arg, signed), base, upper), Negative(arg, signed);
    TextReadsBack(Magnitude(arg, signed), base, upper);
    var missing := width - (if negative then 1 else 0) - |numeral|;
    if zeros {
      ReadsZeros(negative, missing, numeral, base);
    } else {
      ReadsBlanks(negative, missing, numeral, base);
    }
  }

  function Unsigned(s: string): string {
    if s != "" && s[0] == '-' then s[1..] else s
  }

  /** The text of a number as the directive asks for it. It reads back as the number, and has a minus only if
      that is negative. Padded with zeros, it is digits, after the minus if there is one; padded with blanks, all
      that precedes the sign and the shortest numeral is blanks. It fills the width, and has no padding when it
      exceeds it. */
  ghost predicate Printed(out: string, value: int, width: int, zeros: bool, base: nat, upper: bool)
    requires 2 <= base
  {
    && ReadInt(out, base) == value && InCase(out, upper) && |out| >= width && ('-' in out ==> value < 0)
    && (|out| > width ==> Canonical(Unsigned(out), base))
    && (zeros ==> forall i :: 0 <= i < |out| ==> 0 <= DigitValue(out[i]) < base || (i == 0 && out[i] == '-'))
    && (!zeros ==> Canonical(Unsigned(SkipBlanks(out)), base))
  }

  lemma LayoutPrinted(arg: U32, width: int, zeros: bool, base: nat, signed: bool, upper: bool)
    requires 2 <= base <= 16
    ensures Printed(Layout(Negative(arg, signed), Text(Magnitude(arg, signed), base, upper), width, zeros),
                    Meaning(arg, signed), width, zeros, base, upper)
  {
    var negative, v := Negative(arg, signed), Magnitude(arg, signed);
    var numeral := Text(v, base, upper);
    TextReadsBack(v, base, upper);
    TextInCase(v, base, upper);
    PrintedReadsBack(arg, width, zeros, base, signed, upper);
    DigitsOnly(numeral, base);
    Unpadded(negative, numeral, width, zeros);
    var missing := width - (if negative then 1 else 0) - |numeral|;
    if zeros {
      LaidOutZeros(negative, missing, numeral, base, upper);
    } else {
      LaidOutBlanks(negative, missing, numeral, base, upper);
    }
  }

  /** A text that exceeds the width is the sign and the numeral. */
  lemma Unpadded(negative: bool, numeral: string, width: int, zeros: bool)
    requires numeral != "" && numeral[0] != '-'
    ensures var out := Layout(negative, numeral, width, zeros);
            |out| > width ==> Unsigned(out) == numeral
  {
    var sign := if negative then "-" else "";
    var out := Layout(negative, numeral, width, zeros);
    if |out| > width {
      assert Rep('0', width - |sign| - |numeral|) == Rep(' ', width - |sign| - |numeral|) == "";
      assert out == sign + numeral;
      SignOff(negative, numeral);
    }
  }

  lemma SignOff(negative: bool, numeral: string)
    requires numeral != "" && numeral[0] != '-'
    ensures Unsigned((if negative then "-" else "") + numeral) == numeral
  {
    if negative {
      assert ("-" + numeral)[0] == '-' && ("-" + numeral)[1..] == numeral;
    } else {
      assert "" + numeral == numeral;
    }
  }

  lemma DigitsOnly(numeral: string, base: nat)
    requires Canonical(numeral, base)
    ensures forall i :: 0 <= i < |numeral| ==> numeral[i] != ' ' && numeral[i] != '-'
  {
    forall i | 0 <= i < |numeral|
      ensures numeral[i] != ' ' && numeral[i] != '-'
    {
      assert DigitValue(numeral[i]) >= 0;
    }
  }

  lemma LaidOutZeros(negative: bool, n: int, numeral: string, base: nat, upper: bool)
    requires 2 <= base && Canonical(numeral, base) && InCase(numeral, upper)
    requires forall i :: 0 <= i < |numeral| ==> numeral[i] != ' ' && numeral[i] != '-'
    ensures var out := (if negative then "-" else "") + Rep('0', n) + numeral;
            && InCase(out, upper) && ('-' in out ==> negative)
            && forall i :: 0 <= i < |out| ==> 0 <= DigitValue(out[i]) < base || (i == 0 && out[i] == '-')
  {
  }

  lemma LaidOutBlanks(negative: bool, n: int, numeral: string, base: nat, upper: bool)
    requires 2 <= base && Canonical(numeral, base) && InCase(numeral, upper)
    requires forall i :: 0 <= i < |numeral| ==> numeral[i] != ' ' && numeral[i] != '-'
    ensures var out := Rep(' ', n) + (if negative then "-" else "") + numeral;
            InCase(out, upper) && ('-' in out ==> negative) && Canonical(Unsigned(SkipBlanks(out)), base)
  {
    var t := (if negative then "-" else "") + numeral;
    assert Rep(' ', n) + (if negative then "-" else "") + numeral == Rep(' ', n) + t;
    SkipsPadding(n, t);
    SignOff(negative, numeral);
  }

  /** The two printers agree: unpadded %x gives the same text by division and by shifting, the one canonical
      numeral of the word. */
  method PrintHexBothWays(v: U32) returns (shifted: string, divided: string)
    ensures shifted == divided && Canonical(shifted, 16) && Parse(shifted, 16) == v
  {
    shifted := PrintHex(v);
    divided := PrintInteger(v, -1, false, 16, false, false);
    assert Layout(false, shifted, -1, false) == "" + "" + shifted == shifted;
    TextReadsBack(v, 16, false);
  }
}
