/** The integer printers of `Print.cpp`. */
module Printing {
  import opened Bytes
  import opened Numerals
  import opened Sequences

  /** "prevent crash if called with base == 1" */
  function EffectiveBase(base: byte): (b: byte)
    ensures b >= 2 && (base >= 2 ==> b == base) && (base < 2 ==> b == 10)
  {
    if base < 2 then 10 else base
  }

  /** What `write(const char *)` sends: the bytes before the first zero byte. */
  function UpToNul(s: seq<byte>): (t: seq<byte>)
    ensures t <= s && 0 !in t && (|t| < |s| ==> s[|t|] == 0)
    ensures 0 !in s ==> t == s
  {
    if s == [] || s[0] == 0 then [] else [s[0]] + UpToNul(s[1..])
  }

  lemma {:induction false} UpToNulIs(s: seq<byte>, n: nat)
    requires n <= |s| && 0 !in s[..n] && (n < |s| ==> s[n] == 0)
    ensures UpToNul(s) == s[..n]
  {
    if n > 0 {
      assert s[1..][..n - 1] == s[..n][1..];
      UpToNulIs(s[1..], n - 1);
    }
  }

  /** One division moves the lowest digit of `m` from the number to the digits already split off. */
  lemma LowDigit(m: nat, base: nat, q: nat, d: nat, ds: seq<nat>)
    requires base >= 2 && m > 0 && q == Quot(m, base) && d == Rem(m, base)
    ensures Positional(m, base) + ds == Positional(q, base) + ([d] + ds)
  {
    Associate(Positional(q, base), [d], ds);
  }

  /** A numeral's characters contain the zero byte only through digit 201, so never in a base up to 201. */
  lemma NumeralHasNoNul(n: nat, base: byte)
    requires 2 <= base <= 201
    ensures UpToNul(Text(Numeral(n, base))) == Text(Numeral(n, base))
  {
    NumeralMeaning(Numeral(n, base), n, base);
    assert 0 !in Text(Numeral(n, base));
  }

  /** The decimal text of a signed number: the reference for `print(long)`. */
  function Decimal(n: int): seq<byte> {
    if n < 0 then ['-' as int] + Text(Numeral(-n, 10)) else Text(Numeral(n, 10))
  }

  /** A sign for negative numbers only, then the digits of the absolute value; only zero starts with a zero. */
  lemma DecimalMeaning(n: int)
    ensures var text := Decimal(n);
            && text != [] && (text[0] == '-' as int <==> n < 0)
            && var digits := if n < 0 then text[1..] else text;
               Evaluate(digits, 10, 'A' as int) == Some(if n < 0 then -n else n)
               && digits != [] && (digits[0] == '0' as int ==> n == 0 && |digits| == 1)
  {
    hide Evaluate;
    var m: nat := if n < 0 then -n else n;
    TextRoundTrip(m, 10);
    NumeralMeaning(Numeral(m, 10), m, 10);
    if n < 0 { assert Decimal(n)[1..] == Text(Numeral(m, 10)); }
  }

  /** `n = -n` and the conversion to `unsigned long`: right even for the smallest `long`. */
  function Magnitude(n: int32): (u: uint32)
    ensures u as int == if n < 0 then -(n as int) else n
  {
    ToUnsigned(if n < 0 then Wrap32(-(n as int)) else n)
  }

  lemma DecimalSplits(before: seq<byte>, n: int32)
    ensures before + Decimal(n)
         == (if n < 0 then before + ['-' as int] else before) + UpToNul(Text(Numeral(Magnitude(n), EffectiveBase(10))))
  {
    var digits := Text(Numeral(Magnitude(n), 10));
    NumeralHasNoNul(Magnitude(n), 10);
    assert (before + ['-' as int]) + digits == before + (['-' as int] + digits);
  }

  lemma Fits64Bits(n: uint64, base: nat)
    requires base >= 2
    ensures |Positional(n, base)| <= 64
  {
    assert Pow(2, 64) == 0x1_0000_0000_0000_0000 by {
      PowSum(2, 32, 32);
      Pow2At32();
    }
    DigitCount(n, base, 64);
  }

  lemma Fits32Bits(n: uint32, base: nat)
    requires base >= 2
    ensures |Positional(n, base)| <= 32
  {
    Pow2At32();
    DigitCount(n, base, 32);
  }

  lemma Pow2At32()
    ensures Pow(2, 32) == 0x1_0000_0000
  {
    assert Pow(2, 8) == 256;
    PowSum(2, 8, 8);
    PowSum(2, 16, 16);
  }

  lemma {:induction false} PowSum(base: nat, a: nat, b: nat)
    ensures Pow(base, a + b) == Pow(base, a) * Pow(base, b)
  {
    if b > 0 {
      PowSum(base, a, b - 1);
      MulAssoc(Pow(base, a), Pow(base, b - 1), base);
    }
  }

  lemma {:induction false} Pow2From16(k: nat)
    ensures k >= 16 ==> Pow(2, k) >= 0x1_0000
  {
    if k > 16 {
      Pow2From16(k - 1);
    } else {
      assert Pow(2, 8) == 256;
      PowSum(2, 8, 8);
    }
  }

  lemma MulAssoc(a: nat, b: nat, c: nat)
    ensures a * b * c == a * (b * c)
  {
  }

  class Print {
    /** Everything handed to the virtual `write`. */
    var out: seq<byte>

    constructor ()
      ensures out == []
    {
      out := [];
    }

    method Write(c: byte) returns (n: nat)
      modifies this
      ensures n == 1 && out == old(out) + [c]
    {
      out := out + [c];
      n := 1;
    }

    /** `write(const char *str)`, for the zero-terminated string that starts at `buf[start]`. */
    method WriteString(buf: array<byte>, start: nat) returns (n: nat)
      requires start < buf.Length && buf[buf.Length - 1] == 0
      modifies this
      ensures out == old(out) + UpToNul(buf[start..buf.Length - 1])
      ensures n == |UpToNul(buf[start..buf.Length - 1])|
    {
      ghost var all, before := buf[start..buf.Length - 1], out;
      n := 0;
      while buf[start + n] != 0
        invariant start + n < buf.Length && 0 !in all[..n]
        invariant out == before + all[..n]
        decreases buf.Length - n
      {
        assert all[..n + 1] == all[..n] + [buf[start + n]];
        out := out + [buf[start + n]];
        n := n + 1;
      }
      UpToNulIs(all, n);
    }

    method PrintNumber(n: uint32, base: byte) returns (count: nat)
      modifies this
      ensures out == old(out) + UpToNul(Text(Numeral(n, EffectiveBase(base))))
      ensures count == |out| - |old(out)|
    {
      var buf := new byte[8 * 4 + 1];
      Fits32Bits(n, EffectiveBase(base));
      var str := FillFromEnd(buf, n, EffectiveBase(base));
      assert buf[str..buf.Length - 1] == Text(Numeral(n, EffectiveBase(base)));
      count := WriteString(buf, str);
    }

    method PrintLong(n: int32, base: int) returns (count: nat)
      modifies this
      ensures out == old(out) +
        if base == 0 then [n % 256]
        else if base == 10 then Decimal(n)
        else UpToNul(Text(Numeral(ToUnsigned(n), EffectiveBase(base % 256))))
      ensures count == |out| - |old(out)|
    {
      if base == 0 {
        count := Write(n % 256);
      } else if base == 10 {
        count := PrintDecimal(n);
      } else {
        count := PrintNumber(ToUnsigned(n), base % 256);
      }
    }

    /** The `base == 10` branch of `print(long, int)`. */
    method PrintDecimal(n: int32) returns (count: nat)
      modifies this
      ensures out == old(out) + Decimal(n)
      ensures count == |out| - |old(out)|
    {
      DecimalSplits(out, n);
      var t := 0;
      if n < 0 {
        t := Write('-' as int);
      }
      count := PrintNumber(Magnitude(n), 10);
      count := count + t;
    }

    /** `for (; i > 0; i--) write(...)`: the digits were stored least significant first. */
    method WriteDigits(buf: array<byte>, count: nat, ghost digits: seq<nat>)
      requires count == |digits| <= buf.Length
      requires forall k | 0 <= k < count :: buf[k] == digits[count - 1 - k]
      modifies this
      ensures out == old(out) + Text(digits)
    {
      ghost var before := out;
      var i := count;
      while i > 0
        invariant 0 <= i <= count && out == before + Text(digits[..count - i])
      {
        assert digits[..count - i + 1] == digits[..count - i] + [buf[i - 1]];
        var _ := Write(if buf[i - 1] < 10 then '0' as int + buf[i - 1] else ('A' as int + buf[i - 1] - 10) % 256);
        i := i - 1;
      }
      assert digits[..count] == digits;
    }

    /**
     * The fast form. Chunks of `innerLoops` digits are split off with one 64-bit division each and
     * taken apart with 16-bit arithmetic. The types of the locals say that no operation overflows.
     */
    method PrintULLNumber(n: uint64, base: byte) returns (bytes: nat)
      modifies this
      ensures out == old(out) + Text(Positional(n, EffectiveBase(base)))
      ensures bytes == |out| - |old(out)|
    {
      var buf := new byte[64];
      var i := FastDigits(buf, n, EffectiveBase(base));
      bytes := i;
      WriteDigits(buf, i, Positional(n, EffectiveBase(base)));
    }

    /** The reference kept in a comment above the fast form: one 64-bit division for each digit. */
    method PrintULLNumberReference(n: uint64, base: byte) returns (count: nat)
      modifies this
      ensures out == old(out) + UpToNul(Text(Numeral(n, EffectiveBase(base))))
      ensures count == |out| - |old(out)|
    {
      var buf := new byte[65];
      Fits64Bits(n, EffectiveBase(base));
      var str := FillFromEnd(buf, n, EffectiveBase(base));
      assert buf[str..buf.Length - 1] == Text(Numeral(n, EffectiveBase(base)));
      count := WriteString(buf, str);
    }
  }

  /** The chunk power: the largest the loop reaches, a power of the base that fits 16 bits. */
  method ChunkSize(b: byte) returns (th16: uint16, innerLoops: byte)
    requires b >= 2
    ensures th16 == Pow(b, innerLoops) && th16 > 1 && th16 as int * b > 0xFFFF - b
  {
    innerLoops := 0;
    var top: uint16 := 0xFFFF / b;
    th16 := 1;
    while th16 < top
      invariant 1 <= th16 == Pow(b, innerLoops)
      invariant Pow(2, innerLoops) <= th16 && innerLoops <= 16
      decreases top - th16
    {
      Pow2From16(innerLoops);
      ChunkFits(th16, top, b);
      th16 := th16 * b;
      innerLoops := innerLoops + 1;
    }
    DivModSplit(0xFFFF, b);
    Monotone(top, th16, b);
  }

  lemma ChunkFits(th16: nat, top: nat, b: byte)
    requires b >= 2 && top == 0xFFFF / b && 1 <= th16 < top
    ensures th16 < th16 * b <= 0xFFFF && 2 * th16 <= th16 * b
  {
    DivModSplit(0xFFFF, b);
    Monotone(th16, top, b);
    Monotone(2, b, th16);
  }

  /** The inner `for` loop: exactly `k` digits of `r`, the low ones first, zeros included. */
  method PutChunk(buf: array<byte>, i0: byte, r0: uint16, b: byte, k: byte, ghost ds: seq<nat>)
    requires b >= 2 && i0 as int == |ds| && i0 as int + k as int <= buf.Length <= 64
    requires forall j | 0 <= j < i0 :: buf[j] == ds[i0 as int - 1 - j]
    modifies buf
    ensures var all := Padded(r0, b, k) + ds;
            forall j | 0 <= j < |all| :: buf[j] == all[|all| - 1 - j]
  {
    var i: byte, r: uint16 := i0, r0;
    ghost var low: seq<nat> := ds;
    var j: byte := 0;
    while j < k
      invariant j <= k && i == i0 + j && |low| == i
      invariant forall m | 0 <= m < i :: buf[m] == low[i as int - 1 - m]
      invariant Padded(r0, b, k) + ds == Padded(r, b, k - j) + low
    {
      var qq, d := DivideBy(r, b);
      Associate(Padded(qq, b, k - j - 1), [d], low);
      low := [d] + low;
      buf[i] := d;
      i := i + 1;
      r := qq;
      j := j + 1;
    }
    assert Padded(r, b, 0) + low == low;
  }

  /** The digits of `n`, stored in `buf` least significant first. */
  method FastDigits(buf: array<byte>, n: uint64, b: byte) returns (i: byte)
    requires buf.Length == 64 && b >= 2
    modifies buf
    ensures var ds := Positional(n, b);
            i as int == |ds| <= 64 && forall k | 0 <= k < |ds| :: buf[k] == ds[|ds| - 1 - k]
  {
    var th16, innerLoops := ChunkSize(b);
    var n64: uint64 := n;
    ghost var ds: seq<nat> := [];
    i := 0;
    Fits64Bits(n, b);
    while n64 > th16
      invariant n > 0 ==> n64 > 0
      invariant i as int == |ds| <= 64
      invariant forall k | 0 <= k < i :: buf[k] == ds[i as int - 1 - k]
      invariant Positional(n, b) == Positional(n64, b) + ds
      decreases n64
    {
      var q: uint64, r: uint16 := DivideByChunk(n64, th16);
      ChunkSplits(n64, q, r, b, innerLoops);
      n64 := q;
      PutChunk(buf, i, r, b, innerLoops, ds);
      ds := Padded(r, b, innerLoops) + ds;
      i := i + innerLoops;
    }
    i := PutRest(buf, i, n64, b, ds);
  }

  /** The last loop: the digits of what is left, without leading zeros. */
  method PutRest(buf: array<byte>, i0: byte, n: uint16, b: byte, ghost ds0: seq<nat>) returns (i: byte)
    requires b >= 2 && i0 as int == |ds0| && i0 as int + |Positional(n, b)| <= buf.Length <= 64
    requires forall j | 0 <= j < i0 :: buf[j] == ds0[i0 as int - 1 - j]
    modifies buf
    ensures var all := Positional(n, b) + ds0;
            i as int == |all| && forall j | 0 <= j < |all| :: buf[j] == all[|all| - 1 - j]
  {
    var n16: uint16 := n;
    ghost var ds: seq<nat> := ds0;
    i := i0;
    while n16 > 0
      invariant i as int == |ds| <= buf.Length
      invariant forall k | 0 <= k < i :: buf[k] == ds[i as int - 1 - k]
      invariant Positional(n, b) + ds0 == Positional(n16, b) + ds
    {
      var qq, d := DivideBy(n16, b);
      LowDigit(n16, b, qq, d, ds);
      buf[i] := d;
      ds := [d] + ds;
      i := i + 1;
      n16 := qq;
    }
    assert Positional(0, b) + ds == ds;
  }

  /** One division: the quotient, and the digit as what is left over, without a second division. */
  method DivideBy(n: nat, b: byte) returns (q: nat, digit: byte)
    requires b >= 2
    ensures q == Quot(n, b) && digit == Rem(n, b)
  {
    QuotRemMeaning(n, b);
    q := n / b;
    digit := n - q * b;
  }

  /** The one 64-bit division of a chunk. */
  method DivideByChunk(n64: uint64, th16: uint16) returns (q: uint64, r: uint16)
    requires 1 < th16 < n64
    ensures 0 < q < n64 && r < th16 && n64 == q * th16 + r
  {
    QuotRemMeaning(n64, th16);
    q := n64 / th16;
    r := n64 - q * th16;
  }

  /** The `do`/`while` loop fills `buf` from its end. */
  method FillFromEnd(buf: array<byte>, n: nat, b: byte) returns (str: nat)
    requires b >= 2 && buf.Length >= 2 && |Positional(n, b)| < buf.Length
    modifies buf
    ensures var ds := Numeral(n, b);
            |ds| < buf.Length && str == buf.Length - 1 - |ds| && buf[buf.Length - 1] == 0
            && forall k | 0 <= k < |ds| :: buf[str + k] == DigitChar(ds[k])
  {
    str := buf.Length - 1;
    buf[str] := 0;
    var m: nat := n;
    ghost var ds: seq<nat> := [];
    while true
      invariant str < buf.Length && buf[buf.Length - 1] == 0 && |ds| == buf.Length - 1 - str
      invariant forall k | 0 <= k < |ds| :: buf[str + k] == DigitChar(ds[k])
      invariant if ds == [] then m == n else m > 0 && Numeral(n, b) == Positional(m, b) + ds
      decreases m, str
    {
      var q, c := DivideBy(m, b);
      NextDigit(n, m, b, q, c, ds, buf.Length - 1);
      ds := [c] + ds;
      str := str - 1;
      buf[str] := DigitChar(c);
      m := q;
      if m == 0 { break; }
    }
  }

  /** One turn of the `do`/`while` loop; the first turn also handles zero. */
  lemma NextDigit(n: nat, m: nat, b: nat, q: nat, c: nat, ds: seq<nat>, room: nat)
    requires b >= 2 && q == Quot(m, b) && c == Rem(m, b) && |Positional(n, b)| <= room && room > 0
    requires if ds == [] then m == n else m > 0 && Numeral(n, b) == Positional(m, b) + ds
    ensures |ds| < room
    ensures Numeral(n, b) == Positional(q, b) + ([c] + ds)
    ensures q == 0 ==> Numeral(n, b) == [c] + ds
  {
    if m > 0 {
      LowDigit(m, b, q, c, ds);
      assert Positional(m, b) + [] == Positional(m, b);
    }
    assert q == 0 ==> Positional(q, b) + ([c] + ds) == [c] + ds;
  }

  /**
   * The fast form writes what its reference writes exactly when the number is not zero and no digit's
   * character is the zero byte, at which the reference stops; in bases up to 201 none is.
   */
  lemma FastFormMatchesReference(n: uint64, base: byte)
    ensures var b := EffectiveBase(base);
            var fast, reference := Text(Positional(n, b)), UpToNul(Text(Numeral(n, b)));
            && (fast == reference <==> n != 0 && 0 !in Text(Numeral(n, b)))
            && (b <= 201 ==> (fast == reference <==> n != 0))
  {
    var b := EffectiveBase(base);
    assert |Text(Positional(0, b))| == 0;
    if b <= 201 { NumeralHasNoNul(n, b); }
    if n == 0 { assert UpToNul(Text(Numeral(0, b))) == ['0' as int]; }
  }

  /** The bound is exact: above it, the numeral of 201 is one digit whose character is the zero byte. */
  lemma NulFreeExactly(base: byte)
    requires base >= 2
    ensures base <= 201 <==> forall n: uint64 :: UpToNul(Text(Numeral(n, base))) == Text(Numeral(n, base))
  {
    if base <= 201 {
      forall n: uint64 ensures UpToNul(Text(Numeral(n, base))) == Text(Numeral(n, base)) { NumeralHasNoNul(n, base); }
    } else {
      assert Numeral(201, base) == [201];
      var n: uint64 := 201;
      assert UpToNul(Text(Numeral(n, base))) == [];
    }
  }
}
