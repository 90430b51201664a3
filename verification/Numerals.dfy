/**
 * Positional numerals: the specification shared by `Print`, `itoa.c` and `Stream::parseInt`.
 * Digits are listed most significant first.
 */
module Numerals {
  import opened Bytes

  /**
   * `n / base` and `n % base` by repeated subtraction. Unfolding a numeral then stays within linear
   * arithmetic; `QuotRemMeaning` ties the two functions to the operators.
   */
  function Quot(n: nat, base: nat): (q: nat)
    requires base >= 2
    ensures n > 0 ==> q < n
    ensures q <= n
  {
    if n < base then 0 else 1 + Quot(n - base, base)
  }

  function Rem(n: nat, base: nat): (r: nat)
    requires base >= 2
    ensures r < base
  {
    if n < base then n else Rem(n - base, base)
  }

  lemma {:induction false} QuotRemMeaning(n: nat, base: nat)
    requires base >= 2
    ensures n == Quot(n, base) * base + Rem(n, base)
    ensures Quot(n, base) == n / base && Rem(n, base) == n % base
  {
    if n >= base { QuotRemMeaning(n - base, base); }
    Distribute1(Quot(n, base), base);
    DivModUnique(Quot(n, base), Rem(n, base), base);
  }

  lemma Distribute1(q: int, base: nat)
    ensures q * base == (q - 1) * base + base
  {
  }

  /** The digits of `n`; none for zero. */
  function Positional(n: nat, base: nat): (ds: seq<nat>)
    requires base >= 2
    ensures (ds == [] <==> n == 0)
  {
    if n == 0 then [] else Positional(Quot(n, base), base) + [Rem(n, base)]
  }

  /** The numeral of `n`: its digits, and a single zero for zero. */
  function Numeral(n: nat, base: nat): seq<nat>
    requires base >= 2
  {
    if n == 0 then [0] else Positional(n, base)
  }

  /** Exactly `k` digits of `n`, leading zeros included. */
  function Padded(n: nat, base: nat, k: nat): (ds: seq<nat>)
    requires base >= 2
    ensures |ds| == k
  {
    if k == 0 then [] else Padded(Quot(n, base), base, k - 1) + [Rem(n, base)]
  }

  function Value(ds: seq<nat>, base: nat): nat {
    if ds == [] then 0 else Value(ds[..|ds| - 1], base) * base + ds[|ds| - 1]
  }

  function Pow(base: nat, k: nat): nat {
    if k == 0 then 1 else Pow(base, k - 1) * base
  }

  // ----- the numeral of n is the one digit string without leading zeros whose value is n -----

  predicate IsNumeral(ds: seq<nat>, n: nat, base: nat) {
    && ds != [] && (forall i | 0 <= i < |ds| :: ds[i] < base)
    && (ds[0] == 0 ==> |ds| == 1)
    && Value(ds, base) == n
  }

  lemma {:induction false} PositionalValue(n: nat, base: nat)
    requires base >= 2
    ensures Value(Positional(n, base), base) == n
  {
    if n > 0 {
      var q, d := Quot(n, base), Rem(n, base);
      PositionalValue(q, base);
      ValueAppend(Positional(q, base), d, base);
      QuotRemMeaning(n, base);
    }
  }

  lemma ValueAppend(ds: seq<nat>, d: nat, base: nat)
    ensures Value(ds + [d], base) == Value(ds, base) * base + d
  {
    assert (ds + [d])[..|ds|] == ds;
  }

  lemma {:induction false} PositionalDigits(n: nat, base: nat)
    requires base >= 2
    ensures forall i | 0 <= i < |Positional(n, base)| :: Positional(n, base)[i] < base
    ensures n > 0 ==> Positional(n, base)[0] != 0
  {
    if n > 0 { PositionalDigits(Quot(n, base), base); }
  }

  lemma {:induction false} PositionalUnique(ds: seq<nat>, base: nat)
    requires base >= 2 && forall i | 0 <= i < |ds| :: ds[i] < base
    requires ds != [] ==> ds[0] != 0
    ensures ds == Positional(Value(ds, base), base)
  {
    if ds != [] {
      var front, last := ds[..|ds| - 1], ds[|ds| - 1];
      PositionalUnique(front, base);
      DivModUnique(Value(front, base), last, base);
      QuotRemMeaning(Value(ds, base), base);
      assert ds == front + [last];
      assert front != [] ==> Value(front, base) != 0;
      MulAtLeast(Value(front, base), base);
    }
  }

  lemma MulAtLeast(x: int, d: nat)
    ensures x >= 1 ==> x * d >= d
    ensures x <= -1 ==> x * d + d <= 0
  {
  }

  lemma DivModUnique(q: nat, r: nat, base: nat)
    requires r < base
    ensures (q * base + r) / base == q && (q * base + r) % base == r
  {
    var n := q * base + r;
    assert n == n / base * base + n % base;
    assert (n / base - q) * base == r - n % base;
    MulAtLeast(n / base - q, base);
  }

  lemma NumeralMeaning(ds: seq<nat>, n: nat, base: nat)
    requires base >= 2
    ensures ds == Numeral(n, base) <==> IsNumeral(ds, n, base)
  {
    PositionalDigits(n, base);
    PositionalValue(n, base);
    assert Value([0], base) == 0 by { assert [0][..0] == []; }
    if IsNumeral(ds, n, base) && ds[0] != 0 {
      PositionalUnique(ds, base);
    }
  }

  // ----- lengths and splitting -----

  lemma {:induction false} DigitCount(n: nat, base: nat, k: nat)
    requires base >= 2 && n < Pow(2, k)
    ensures |Positional(n, base)| <= k
  {
    if n > 0 {
      QuotHalves(n, base);
      DigitCount(Quot(n, base), base, k - 1);
    }
  }

  lemma {:induction false} QuotHalves(n: nat, base: nat)
    requires base >= 2
    ensures 2 * Quot(n, base) <= n
  {
    if n >= base { QuotHalves(n - base, base); }
  }

  /** Below a leading part `q`, the low part contributes exactly `k` digits, inner zeros included. */
  lemma {:induction false} ChunkSplits(n: nat, q: nat, r: nat, base: nat, k: nat)
    requires base >= 2 && q > 0 && r < Pow(base, k) && n == q * Pow(base, k) + r
    ensures Positional(n, base) == Positional(q, base) + Padded(r, base, k)
  {
    if k == 0 {
      assert q * 1 == n;
    } else {
      var low, d, p := Quot(r, base), Rem(r, base), Pow(base, k - 1);
      QuotRemMeaning(r, base);
      LastDigit(q, p, low, d, base, n);
      QuotRemMeaning(n, base);
      ChunkSplits(Quot(n, base), q, low, base, k - 1);
    }
  }

  lemma LastDigit(q: nat, p: nat, low: nat, d: nat, base: nat, n: nat)
    requires base >= 2 && q > 0 && d < base && low * base + d < p * base
    requires n == q * (p * base) + (low * base + d)
    ensures n > 0 && n / base == q * p + low && n % base == d && low < p
  {
    Distribute(q, p, low, base);
    DivModUnique(q * p + low, d, base);
    Below(low, p, base);
    MulAtLeast(q, p);
    MulAtLeast(q * p + low, base);
  }

  lemma DivModSplit(n: nat, base: nat)
    requires base >= 2
    ensures n == n / base * base + n % base && n % base < base
  {
  }

  lemma Below(low: nat, p: nat, base: nat)
    requires low * base < p * base
    ensures low < p
  {
    Monotone(p, low, base);
  }

  lemma Monotone(a: nat, b: nat, c: nat)
    ensures a <= b ==> a * c <= b * c
  {
  }

  lemma Distribute(q: nat, p: nat, low: nat, base: nat)
    ensures q * (p * base) + low * base == (q * p + low) * base
  {
  }

  lemma PowPositive(base: nat, k: nat)
    requires base >= 1
    ensures Pow(base, k) > 0
  {
  }

  // ----- digits as characters -----

  /** `c < 10 ? c + '0' : c + 'A' - 10`, stored in a `char`. */
  function DigitChar(d: nat): byte {
    if d < 10 then d + '0' as int else (d + 'A' as int - 10) % 256
  }

  function Text(ds: seq<nat>): (t: seq<byte>)
    ensures |t| == |ds| && forall i | 0 <= i < |t| :: t[i] == DigitChar(ds[i])
  {
    seq(|ds|, i requires 0 <= i < |ds| => DigitChar(ds[i]))
  }

  // ----- a reader of numerals -----

  /** What a character stands for, with `letter` for ten; no other characters belong to a numeral. */
  function CharValue(c: byte, letter: byte): Option<nat> {
    if '0' as int <= c <= '9' as int then Some(c - '0' as int)
    else if letter <= c < letter + 26 then Some(c - letter + 10)
    else None
  }

  /** The number a text stands for, if all its characters are digits of the base. */
  function Evaluate(text: seq<byte>, base: nat, letter: byte): Option<nat> {
    if text == [] then Some(0)
    else
      match (Evaluate(text[..|text| - 1], base, letter), CharValue(text[|text| - 1], letter))
      case (Some(v), Some(d)) => if d < base then Some(v * base + d) else None
      case _ => None
  }

  lemma {:induction false} EvaluateText(text: seq<byte>, ds: seq<nat>, base: nat, letter: byte)
    requires |text| == |ds| && forall i | 0 <= i < |ds| :: ds[i] < base && CharValue(text[i], letter) == Some(ds[i])
    ensures Evaluate(text, base, letter) == Some(Value(ds, base))
  {
    if ds != [] {
      EvaluateText(text[..|ds| - 1], ds[..|ds| - 1], base, letter);
    }
  }

  lemma CharsOf(ds: seq<nat>, base: nat)
    requires base <= 36 && forall i | 0 <= i < |ds| :: ds[i] < base
    ensures forall i | 0 <= i < |ds| :: CharValue(Text(ds)[i], 'A' as int) == Some(ds[i])
    ensures forall i | 0 <= i < |ds| :: Text(ds)[i] == '0' as int <==> ds[i] == 0
  {
  }

  /** Written in any base up to 36, a number is read back; only zero starts with a zero. */
  lemma TextRoundTrip(n: nat, base: nat)
    requires 2 <= base <= 36
    ensures var text := Text(Numeral(n, base));
            Evaluate(text, base, 'A' as int) == Some(n) && text != [] && (text[0] == '0' as int ==> n == 0 && |text| == 1)
  {
    hide Evaluate, Value;
    var ds := Numeral(n, base);
    NumeralMeaning(ds, n, base);
    CharsOf(ds, base);
    EvaluateText(Text(ds), ds, base, 'A' as int);
  }

  /** In larger bases the characters go on after the letters, one code after the other. */
  lemma LettersGoOn(d: nat)
    requires d >= 10
    ensures DigitChar(10) == 'A' as int && DigitChar(d + 1) == (DigitChar(d) + 1) % 256
  {
  }
}
