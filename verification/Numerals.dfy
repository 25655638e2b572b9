/** Numerals: how a number is written in a base, how such text reads back, and what reading digits off
    the top does. */
module Numerals {

  import opened Arithmetic

  // ----- place values -------------------------------------------------------------------------

  lemma BelowNext(d: nat, b: nat, p: nat, w: nat)
    requires d < b && w < p
    ensures d * p + w < b * p
  {
    MulMono(d + 1, b, p);
    assert (d + 1) * p == d * p + p;
  }

  function Pow(b: nat, k: nat): (p: nat)
    requires b > 0
    ensures p > 0
  {
    if k == 0 then 1 else MulAtLeast(b, Pow(b, k - 1)); b * Pow(b, k - 1)
  }

  // ----- digits -------------------------------------------------------------------------------

  /** The digits of `v`, highest first, without superfluous zeros. */
  function Digits(v: nat, base: nat): (ds: seq<nat>)
    requires 2 <= base
    ensures ds != []
    decreases v
  {
    if v < base then [v] else DivShrinks(v, base); Digits(v / base, base) + [v % base]
  }

  predicate InBase(ds: seq<nat>, base: nat) {
    forall i :: 0 <= i < |ds| ==> ds[i] < base
  }

  /** What digits stand for, read off the top. */
  function Value(ds: seq<nat>, base: nat): nat
    requires base > 0
  {
    if ds == [] then 0 else ds[0] * Pow(base, |ds| - 1) + Value(ds[1..], base)
  }

  lemma {:induction false} ValueBound(ds: seq<nat>, base: nat)
    requires base > 0 && InBase(ds, base)
    ensures Value(ds, base) < Pow(base, |ds|)
  {
    if ds != [] {
      ValueBound(ds[1..], base);
      BelowNext(ds[0], base, Pow(base, |ds| - 1), Value(ds[1..], base));
    }
  }

  lemma Regroup(a: nat, p: nat, w: nat, b: nat, d: nat)
    ensures (a * p + w) * b + d == a * (b * p) + (w * b + d)
  {
    assert a * p * b == a * (b * p);
  }

  lemma {:induction false} ValueSnoc(ds: seq<nat>, d: nat, base: nat)
    requires base > 0
    ensures Value(ds + [d], base) == Value(ds, base) * base + d
  {
    if ds == [] {
      assert [] + [d] == [d] && [d][1..] == [];
    } else {
      var p, w := Pow(base, |ds| - 1), Value(ds[1..], base);
      ValueSnoc(ds[1..], d, base);
      assert (ds + [d])[1..] == ds[1..] + [d];
      Regroup(ds[0], p, w, base, d);
    }
  }

  lemma {:induction false} DigitsOf(v: nat, base: nat)
    requires 2 <= base
    ensures var ds := Digits(v, base);
            InBase(ds, base) && Value(ds, base) == v && (ds[0] == 0 ==> v == 0 && |ds| == 1)
    decreases v
  {
    if v < base {
      assert [v][1..] == [];
    } else {
      DivShrinks(v, base);
      DigitsOf(v / base, base);
      DivMod(v, base);
      ValueSnoc(Digits(v / base, base), v % base, base);
    }
  }

  /** The place value of the top digit is at most the number, unless the number is zero. */
  lemma TopPlace(v: nat, base: nat)
    requires 2 <= base && v > 0
    ensures Pow(base, |Digits(v, base)| - 1) <= v
  {
    DigitsOf(v, base);
    var ds := Digits(v, base);
    MulAtLeast(ds[0], Pow(base, |ds| - 1));
  }

  lemma {:induction false} PowMono(base: nat, i: nat, j: nat)
    requires base > 0 && i <= j
    ensures Pow(base, i) <= Pow(base, j)
  {
    if i < j {
      PowMono(base, i, j - 1);
      MulAtLeast(base, Pow(base, j - 1));
    }
  }

  /** Dividing by the place value of the top digit splits it off. */
  lemma SplitTop(ds: seq<nat>, base: nat)
    requires base > 0 && ds != [] && InBase(ds, base)
    ensures var p := Pow(base, |ds| - 1);
            Value(ds, base) / p == ds[0] && Value(ds, base) % p == Value(ds[1..], base)
  {
    ValueBound(ds[1..], base);
    DivOfSum(ds[0], Pow(base, |ds| - 1), Value(ds[1..], base));
  }

  lemma NextPlace(base: nat, k: nat)
    requires 2 <= base
    ensures Pow(base, k) / base == if k == 0 then 0 else Pow(base, k - 1)
  {
    if k == 0 {
      DivOfSum(0, base, 1);
    } else {
      DivOfSum(Pow(base, k - 1), base, 0);
    }
  }

  /** Dividing by a place value drops the digits below it. */
  lemma {:induction false} DropLow(ds: seq<nat>, k: nat, base: nat)
    requires base > 0 && k <= |ds| && InBase(ds, base)
    ensures Value(ds, base) / Pow(base, k) == Value(ds[..|ds| - k], base)
  {
    var hi, lo := ds[..|ds| - k], ds[|ds| - k..];
    ValueSplit(hi, lo, base);
    assert ds == hi + lo;
    ValueBound(lo, base);
    DivOfSum(Value(hi, base), Pow(base, k), Value(lo, base));
  }

  lemma {:induction false} ValueSplit(hi: seq<nat>, lo: seq<nat>, base: nat)
    requires base > 0
    ensures Value(hi + lo, base) == Value(hi, base) * Pow(base, |lo|) + Value(lo, base)
  {
    if lo == [] {
      assert hi + lo == hi;
    } else {
      var n, d := |lo| - 1, lo[|lo| - 1];
      var lo' := lo[..n];
      ValueSplit(hi, lo', base);
      assert lo == lo' + [d] && hi + lo == (hi + lo') + [d];
      ValueSnoc(hi + lo', d, base);
      ValueSnoc(lo', d, base);
      Regroup(Value(hi, base), Pow(base, n), Value(lo', base), base, d);
    }
  }

  // ----- text ---------------------------------------------------------------------------------

  function Digit(d: nat, upper: bool): char
    requires d < 16
  {
    if d < 10 then '0' + d as char else (if upper then 'A' else 'a') + (d - 10) as char
  }

  /** The value of a digit character, or -1. */
  function DigitValue(c: char): (d: int)
    ensures -1 <= d < 16
  {
    if '0' <= c <= '9' then (c - '0') as int
    else if 'a' <= c <= 'f' then (c - 'a') as int + 10
    else if 'A' <= c <= 'F' then (c - 'A') as int + 10
    else -1
  }

  lemma DigitReadsBack(d: nat, upper: bool)
    requires d < 16
    ensures DigitValue(Digit(d, upper)) == d && (Digit(d, upper) == '0' <==> d == 0)
  {
  }

  function Spell(ds: seq<nat>, upper: bool): (s: string)
    requires InBase(ds, 16)
    ensures |s| == |ds| && forall i :: 0 <= i < |ds| ==> s[i] == Digit(ds[i], upper)
  {
    if ds == [] then "" else [Digit(ds[0], upper)] + Spell(ds[1..], upper)
  }

  /** The numeral of `v`. */
  function Text(v: nat, base: nat, upper: bool): (s: string)
    requires 2 <= base <= 16
    ensures |s| == |Digits(v, base)|
  {
    DigitsOf(v, base);
    Spell(Digits(v, base), upper)
  }

  predicate CharInCase(c: char, upper: bool) {
    if upper then c < 'a' || 'f' < c else c < 'A' || 'F' < c
  }

  /** No letter of the other case. */
  predicate InCase(s: string, upper: bool) {
    forall i :: 0 <= i < |s| ==> CharInCase(s[i], upper)
  }

  lemma DigitInCase(d: nat, upper: bool)
    requires d < 16
    ensures CharInCase(Digit(d, upper), upper)
  {
  }

  lemma TextInCase(v: nat, base: nat, upper: bool)
    requires 2 <= base <= 16
    ensures InCase(Text(v, base, upper), upper)
  {
    DigitsOf(v, base);
    var ds := Digits(v, base);
    forall i | 0 <= i < |ds|
      ensures CharInCase(Spell(ds, upper)[i], upper)
    {
      DigitInCase(ds[i], upper);
    }
  }

  /** What a string of digit characters stands for. */
  function Parse(s: string, base: nat): int {
    if s == "" then 0 else Parse(s[..|s| - 1], base) * base + DigitValue(s[|s| - 1])
  }

  /** Text that is a numeral of the base with no superfluous leading zero. */
  predicate Canonical(s: string, base: nat) {
    && s != "" && (forall i :: 0 <= i < |s| ==> 0 <= DigitValue(s[i]) < base)
    && (|s| > 1 ==> s[0] != '0')
  }

  lemma {:induction false} SpellReadsBack(ds: seq<nat>, base: nat, upper: bool)
    requires 0 < base <= 16 && InBase(ds, base)
    ensures Parse(Spell(ds, upper), base) == Value(ds, base)
  {
    if ds != [] {
      var n := |ds| - 1;
      var front, last := ds[..n], ds[n];
      assert ds == front + [last];
      SpellReadsBack(front, base, upper);
      SpellLast(ds, base, upper);
      ValueSnoc(front, last, base);
    }
  }

  lemma SpellLast(ds: seq<nat>, base: nat, upper: bool)
    requires ds != [] && 0 < base <= 16 && InBase(ds, base)
    ensures var n := |ds| - 1;
            Parse(Spell(ds, upper), base) == Parse(Spell(ds[..n], upper), base) * base + ds[n]
  {
    SpellFront(ds, upper);
    DigitReadsBack(ds[|ds| - 1], upper);
  }

  lemma SpellFront(ds: seq<nat>, upper: bool)
    requires ds != [] && InBase(ds, 16)
    ensures var n := |ds| - 1;
            Spell(ds, upper)[..n] == Spell(ds[..n], upper) && Spell(ds, upper)[n] == Digit(ds[n], upper)
  {
  }

  /** The numeral of a number reads back as that number and has no superfluous leading zero. */
  lemma TextReadsBack(v: nat, base: nat, upper: bool)
    requires 2 <= base <= 16
    ensures Canonical(Text(v, base, upper), base) && Parse(Text(v, base, upper), base) == v
  {
    DigitsOf(v, base);
    var ds := Digits(v, base);
    SpellReadsBack(ds, base, upper);
    forall i | 0 <= i < |ds|
      ensures DigitValue(Text(v, base, upper)[i]) == ds[i]
    {
      DigitReadsBack(ds[i], upper);
    }
    DigitReadsBack(ds[0], upper);
  }

  lemma CanonicalPrefix(s: string, base: nat)
    requires Canonical(s, base) && |s| > 1
    ensures Canonical(s[..|s| - 1], base) && s[..|s| - 1][0] != '0'
  {
  }

  lemma ZeroDigit(c: char)
    requires DigitValue(c) == 0
    ensures c == '0'
  {
  }

  lemma {:induction false} CanonicalSize(s: string, base: nat)
    requires 2 <= base && Canonical(s, base)
    ensures 0 <= Parse(s, base) && (s[0] != '0' ==> 1 <= Parse(s, base)) && (|s| > 1 ==> base <= Parse(s, base))
  {
    var n := |s| - 1;
    if n == 0 {
      assert s[..n] == "";
      if DigitValue(s[0]) == 0 { ZeroDigit(s[0]); }
    } else {
      CanonicalPrefix(s, base);
      CanonicalSize(s[..n], base);
      MulAtLeast(Parse(s[..n], base), base);
    }
  }

  /** A numeral is determined by its value: two canonical texts that read the same have the same digits. */
  lemma {:induction false} CanonicalUnique(s: string, t: string, base: nat)
    requires 2 <= base && Canonical(s, base) && Canonical(t, base) && Parse(s, base) == Parse(t, base)
    ensures |s| == |t| && forall i :: 0 <= i < |s| ==> DigitValue(s[i]) == DigitValue(t[i])
  {
    var m, n := |s| - 1, |t| - 1;
    CanonicalSize(s, base);
    CanonicalSize(t, base);
    if m > 0 && n > 0 {
      CanonicalPrefix(s, base);
      CanonicalPrefix(t, base);
      CanonicalSize(s[..m], base);
      CanonicalSize(t[..n], base);
      DivUnique(Parse(s[..m], base), Parse(t[..n], base), DigitValue(s[m]), DigitValue(t[n]), base);
      CanonicalUnique(s[..m], t[..n], base);
      forall i | 0 <= i < |s|
        ensures DigitValue(s[i]) == DigitValue(t[i])
      {
        assert i < m ==> s[i] == s[..m][i] && t[i] == t[..n][i];
      }
    } else {
      assert m == 0 && n == 0;
      assert s[..0] == "" && t[..0] == "";
    }
  }
}
