/** What `Stream::parseInt` computes, and that it reads back what `Print::print(long)` wrote. */
module Parsing {
  import opened Bytes
  import opened Numerals
  import opened Printing
  import opened Sequences

  datatype LookaheadMode = SkipAll | SkipNone | SkipWhitespace

  predicate IsDigit(c: int) {
    '0' as int <= c <= '9' as int
  }

  /** Characters at which the lookahead stops: a sign, a digit, and a point if decimals are wanted. */
  predicate Starts(c: int, detectDecimal: bool) {
    c == '-' as int || IsDigit(c) || (detectDecimal && c == '.' as int)
  }

  predicate Skippable(c: byte, mode: LookaheadMode) {
    match mode
    case SkipAll => true
    case SkipNone => false
    case SkipWhitespace => c == ' ' as int || c == '\t' as int || c == '\r' as int || c == '\n' as int
  }

  /** The input from the first character that is not skipped. */
  function AfterJunk(data: seq<byte>, mode: LookaheadMode, detectDecimal: bool): seq<byte> {
    if data == [] || Starts(data[0], detectDecimal) || !Skippable(data[0], mode) then data
    else AfterJunk(data[1..], mode, detectDecimal)
  }

  /** One turn of the accumulator, each operation at the width of `long`. */
  function Accumulate(value: int32, c: byte, ignore: byte): int32 {
    if c == ignore || !IsDigit(c) then value else Wrap32(Wrap32(Wrap32(value * 10) + c) - '0' as int)
  }

  function ParseTail(data: seq<byte>, ignore: byte, value: int32): (int32, seq<byte>) {
    if data != [] && (IsDigit(data[0]) || data[0] == ignore)
    then ParseTail(data[1..], ignore, Accumulate(value, data[0], ignore))
    else (value, data)
  }

  function ParsedInt(data: seq<byte>, mode: LookaheadMode, ignore: byte): (int32, seq<byte>) {
    var rest := AfterJunk(data, mode, false);
    if rest == [] || !Starts(rest[0], false) then (0, rest)
    else
      var (value, tail) := ParseTail(rest[1..], ignore, Accumulate(0, rest[0], ignore));
      (if rest[0] == '-' as int && rest[0] != ignore then Wrap32(-(value as int)) else value, tail)
  }

  // ----- the accumulator modulo 2^32 -----

  lemma WrapTimes(x: int, c: int)
    ensures Wrap32(Wrap32(Wrap32(Wrap32(x) * 10) + c) - '0' as int) == Wrap32(x * 10 + (c - '0' as int))
  {
    var a: int := Wrap32(x);
    var b := Wrap32((a as int) * 10);
    var i := WrapDiffers(x);
    var j := WrapDiffers(a * 10);
    var k := WrapDiffers(b + c);
    WrapAgrees(x * 10 + (c - '0' as int), Wrap32(b + c) - '0' as int, 10 * i + j + k);
  }

  /** `x` followed by decimal digits, most significant first. */
  function Horner(x: int, ds: seq<nat>): int
    decreases |ds|
  {
    if ds == [] then x else Horner(x * 10 + ds[0], ds[1..])
  }

  lemma {:induction false} HornerAppend(x: int, ds: seq<nat>, d: nat)
    ensures Horner(x, ds + [d]) == Horner(x, ds) * 10 + d
    decreases |ds|
  {
    if ds != [] {
      assert (ds + [d])[1..] == ds[1..] + [d];
      HornerAppend(x * 10 + ds[0], ds[1..], d);
    }
  }

  lemma {:induction false} HornerIsValue(ds: seq<nat>)
    ensures Horner(0, ds) == Value(ds, 10)
  {
    if ds != [] {
      HornerIsValue(ds[..|ds| - 1]);
      HornerAppend(0, ds[..|ds| - 1], ds[|ds| - 1]);
      assert ds == ds[..|ds| - 1] + [ds[|ds| - 1]];
    }
  }

  // ----- digits with ignored characters in between -----

  function Without(text: seq<byte>, ignore: byte): seq<byte> {
    if text == [] then [] else (if text[0] == ignore then [] else [text[0]]) + Without(text[1..], ignore)
  }

  /** The reader stops here: the end of the data, or a character that is neither digit nor ignored. */
  predicate Terminates(tail: seq<byte>, ignore: byte) {
    tail == [] || (!IsDigit(tail[0]) && tail[0] != ignore)
  }

  lemma FirstDigit(text: seq<byte>, ds: seq<nat>, ignore: byte)
    requires text != [] && text[0] != ignore && Without(text, ignore) == Text(ds)
    ensures ds != [] && text[0] == DigitChar(ds[0]) && Without(text[1..], ignore) == Text(ds[1..])
  {
    assert Without(text, ignore)[0] == text[0] == Text(ds)[0];
    assert Without(text[1..], ignore) == Without(text, ignore)[1..];
    assert Text(ds)[1..] == Text(ds[1..]);
  }

  lemma AccumulateDigit(x: int, d: nat, ignore: byte)
    requires d < 10 && !IsDigit(ignore)
    ensures Accumulate(Wrap32(x), DigitChar(d), ignore) == Wrap32(x * 10 + d)
  {
    WrapTimes(x, DigitChar(d));
  }

  lemma {:induction false} ReadsDigits(text: seq<byte>, ds: seq<nat>, tail: seq<byte>, ignore: byte, x: int)
    requires !IsDigit(ignore) && Terminates(tail, ignore)
    requires forall i | 0 <= i < |ds| :: ds[i] < 10
    requires Without(text, ignore) == Text(ds)
    ensures ParseTail(text + tail, ignore, Wrap32(x)) == (Wrap32(Horner(x, ds)), tail)
  {
    if text == [] {
      assert text + tail == tail;
    } else {
      assert (text + tail)[1..] == text[1..] + tail;
      if text[0] == ignore {
        ReadsDigits(text[1..], ds, tail, ignore, x);
      } else {
        FirstDigit(text, ds, ignore);
        AccumulateDigit(x, ds[0], ignore);
        ReadsDigits(text[1..], ds[1..], tail, ignore, x * 10 + ds[0]);
      }
    }
  }

  /** What is skipped: in each mode the bytes named here, up to the first other one. */
  lemma {:induction false} SkipsJunk(junk: seq<byte>, rest: seq<byte>, mode: LookaheadMode, detectDecimal: bool)
    requires forall i | 0 <= i < |junk| ::
               && junk[i] != '-' as int && !('0' as int <= junk[i] <= '9' as int) && (detectDecimal ==> junk[i] != '.' as int)
               && (mode.SkipAll? || (mode.SkipWhitespace? && junk[i] in [' ' as int, '\t' as int, '\r' as int, '\n' as int]))
    requires rest != [] ==>
               || rest[0] == '-' as int || '0' as int <= rest[0] <= '9' as int || (detectDecimal && rest[0] == '.' as int)
               || mode.SkipNone? || (mode.SkipWhitespace? && rest[0] !in [' ' as int, '\t' as int, '\r' as int, '\n' as int])
    ensures AfterJunk(junk + rest, mode, detectDecimal) == rest
  {
    if junk == [] {
      assert junk + rest == rest;
    } else {
      assert (junk + rest)[1..] == junk[1..] + rest;
      SkipsJunk(junk[1..], rest, mode, detectDecimal);
    }
  }

  /** Every input begins with junk of this kind, possibly none, up to a place where reading stops. */
  lemma {:induction false} JunkOf(data: seq<byte>, mode: LookaheadMode, detectDecimal: bool) returns (junk: seq<byte>)
    ensures var rest := AfterJunk(data, mode, detectDecimal);
            && data == junk + rest
            && (forall i | 0 <= i < |junk| :: !Starts(junk[i], detectDecimal) && Skippable(junk[i], mode))
            && (rest != [] ==> Starts(rest[0], detectDecimal) || !Skippable(rest[0], mode))
  {
    if data == [] || Starts(data[0], detectDecimal) || !Skippable(data[0], mode) {
      junk := [];
    } else {
      junk := JunkOf(data[1..], mode, detectDecimal);
      junk := [data[0]] + junk;
    }
  }

  /** The values of the digits in a text, without the ignored character. */
  function Digits(text: seq<byte>, ignore: byte): seq<nat> {
    if text == [] then []
    else if '0' as int <= text[0] <= '9' as int && text[0] != ignore then [text[0] - '0' as int] + Digits(text[1..], ignore)
    else Digits(text[1..], ignore)
  }

  lemma {:induction false} TailOf(data: seq<byte>, ignore: byte, x: int) returns (text: seq<byte>, tail: seq<byte>)
    ensures data == text + tail && ParseTail(data, ignore, Wrap32(x)) == (Wrap32(Horner(x, Digits(text, ignore))), tail)
    ensures forall i | 0 <= i < |text| :: '0' as int <= text[i] <= '9' as int || text[i] == ignore
    ensures tail != [] ==> !('0' as int <= tail[0] <= '9' as int) && tail[0] != ignore
  {
    hide Accumulate, Digits, Horner;
    if data != [] && (IsDigit(data[0]) || data[0] == ignore) {
      var c := data[0];
      OneMore(x, c, ignore);
      var more;
      more, tail := TailOf(data[1..], ignore, Extended(x, c, ignore));
      text := [c] + more;
      FirstCounts(x, c, more, ignore);
    } else {
      NothingCounts(x, ignore);
      text, tail := [], data;
    }
  }

  /** The value `x` with one more character read, at unbounded width. */
  function Extended(x: int, c: byte, ignore: byte): int {
    if c == ignore || !IsDigit(c) then x else x * 10 + (c - '0' as int)
  }

  lemma OneMore(x: int, c: byte, ignore: byte)
    ensures Accumulate(Wrap32(x), c, ignore) == Wrap32(Extended(x, c, ignore))
  {
    WrapTimes(x, c);
  }

  lemma FirstCounts(x: int, c: byte, more: seq<byte>, ignore: byte)
    ensures Horner(x, Digits([c] + more, ignore)) == Horner(Extended(x, c, ignore), Digits(more, ignore))
  {
    assert ([c] + more)[1..] == more;
    if c != ignore && IsDigit(c) {
      var ds := Digits([c] + more, ignore);
      assert ds == [c - '0' as int] + Digits(more, ignore);
      assert ds[1..] == Digits(more, ignore);
    }
  }

  lemma NothingCounts(x: int, ignore: byte)
    ensures Horner(x, Digits([], ignore)) == x
  {
  }

  /**
   * `parseInt` on every input: the junk that the mode skips; then, from a sign or digit on, the digits and ignored
   * characters, whose value at 32 bits is returned; then the rest, which stays. Without a number it is zero.
   */
  lemma ParsedMeaning(data: seq<byte>, mode: LookaheadMode, ignore: byte)
    returns (junk: seq<byte>, number: seq<byte>, tail: seq<byte>)
    ensures data == junk + number + tail
    ensures forall i | 0 <= i < |junk| ::
              && junk[i] != '-' as int && !('0' as int <= junk[i] <= '9' as int)
              && (mode.SkipAll? || (mode.SkipWhitespace? && junk[i] in [' ' as int, '\t' as int, '\r' as int, '\n' as int]))
    ensures number == [] ==>
              && ParsedInt(data, mode, ignore) == (0, tail)
              && (tail != [] ==>
                    && tail[0] != '-' as int && !('0' as int <= tail[0] <= '9' as int)
                    && (mode.SkipNone? || (mode.SkipWhitespace? && tail[0] !in [' ' as int, '\t' as int, '\r' as int, '\n' as int])))
    ensures number != [] ==>
              && (number[0] == '-' as int || '0' as int <= number[0] <= '9' as int)
              && (forall i | 0 < i < |number| :: '0' as int <= number[i] <= '9' as int || number[i] == ignore)
              && (tail != [] ==> !('0' as int <= tail[0] <= '9' as int) && tail[0] != ignore)
              && var value: int := Value(Digits(number, ignore), 10);
                 ParsedInt(data, mode, ignore)
                 == (Wrap32(if number[0] == '-' as int && ignore != '-' as int then -value else value), tail)
  {
    hide *;
    junk := JunkOf(data, mode, false);
    var rest := AfterJunk(data, mode, false);
    JunkNamed(junk, rest, mode);
    StartNamed(rest);
    ParsedIntIs(data, mode, ignore, rest);
    if rest == [] || !Starts(rest[0], false) {
      number, tail := [], rest;
      assert junk + [] == junk;
    } else {
      number, tail := NumberOf(rest, ignore);
      Associate(junk, number, tail);
    }
  }

  lemma JunkNamed(junk: seq<byte>, rest: seq<byte>, mode: LookaheadMode)
    requires forall i | 0 <= i < |junk| :: !Starts(junk[i], false) && Skippable(junk[i], mode)
    requires rest != [] ==> Starts(rest[0], false) || !Skippable(rest[0], mode)
    ensures forall i | 0 <= i < |junk| ::
              && junk[i] != '-' as int && !('0' as int <= junk[i] <= '9' as int)
              && (mode.SkipAll? || (mode.SkipWhitespace? && junk[i] in [' ' as int, '\t' as int, '\r' as int, '\n' as int]))
    ensures rest != [] && !Starts(rest[0], false) ==>
              mode.SkipNone? || (mode.SkipWhitespace? && rest[0] !in [' ' as int, '\t' as int, '\r' as int, '\n' as int])
  {
  }

  lemma StartNamed(rest: seq<byte>)
    ensures rest != [] ==> (Starts(rest[0], false) <==> rest[0] == '-' as int || '0' as int <= rest[0] <= '9' as int)
  {
  }

  lemma ParsedIntIs(data: seq<byte>, mode: LookaheadMode, ignore: byte, rest: seq<byte>)
    requires rest == AfterJunk(data, mode, false)
    ensures ParsedInt(data, mode, ignore)
         == if rest == [] || !Starts(rest[0], false) then (0, rest)
            else
              var (value, tail) := ParseTail(rest[1..], ignore, Accumulate(0, rest[0], ignore));
              (if rest[0] == '-' as int && rest[0] != ignore then Wrap32(-(value as int)) else value, tail)
  {
  }

  lemma NumberOf(rest: seq<byte>, ignore: byte) returns (number: seq<byte>, tail: seq<byte>)
    requires rest != [] && Starts(rest[0], false)
    ensures rest == number + tail && number != [] && number[0] == rest[0]
    ensures forall i | 0 < i < |number| :: '0' as int <= number[i] <= '9' as int || number[i] == ignore
    ensures tail != [] ==> !('0' as int <= tail[0] <= '9' as int) && tail[0] != ignore
    ensures var (v, t) := ParseTail(rest[1..], ignore, Accumulate(0, rest[0], ignore));
            var value: int := Value(Digits(number, ignore), 10);
            t == tail && v == Wrap32(value) && Wrap32(-(v as int)) == Wrap32(-value)
  {
    hide Digits, Horner, Value, Accumulate, ParseTail;
    var c := rest[0];
    OneMore(0, c, ignore);
    var text;
    text, tail := TailOf(rest[1..], ignore, Extended(0, c, ignore));
    number := [c] + text;
    FirstCounts(0, c, text, ignore);
    HornerIsValue(Digits(number, ignore));
    NegateWrapped(Value(Digits(number, ignore), 10));
  }

  lemma NegateWrapped(x: int)
    ensures Wrap32(-(Wrap32(x) as int)) == Wrap32(-x)
  {
    var k := WrapDiffers(x);
    WrapAgrees(-(Wrap32(x) as int), -x, k);
  }

  lemma DecimalDigits(m: nat) returns (ds: seq<nat>)
    ensures Text(ds) == Text(Numeral(m, 10)) && Horner(0, ds) == m
    ensures forall i | 0 <= i < |ds| :: ds[i] < 10
  {
    ds := Numeral(m, 10);
    NumeralMeaning(ds, m, 10);
    HornerIsValue(ds);
  }

  /** A numeral read from its first digit on. */
  lemma ReadsNumeral(m: nat, text: seq<byte>, tail: seq<byte>, ignore: byte)
    requires !IsDigit(ignore) && Terminates(tail, ignore)
    requires text != [] && text[0] != ignore && Without(text, ignore) == Text(Numeral(m, 10))
    ensures IsDigit(text[0])
    ensures ParseTail(text[1..] + tail, ignore, Accumulate(0, text[0], ignore)) == (Wrap32(m), tail)
  {
    var ds := DecimalDigits(m);
    FirstDigit(text, ds, ignore);
    AccumulateDigit(0, ds[0], ignore);
    ReadsDigits(text[1..], ds[1..], tail, ignore, ds[0]);
  }

  /** A numeral read after a minus sign has been consumed. */
  lemma ReadsAfterSign(m: nat, text: seq<byte>, tail: seq<byte>, ignore: byte)
    requires !IsDigit(ignore) && Terminates(tail, ignore)
    requires Without(text, ignore) == Text(Numeral(m, 10))
    ensures ParseTail(text + tail, ignore, 0) == (Wrap32(m), tail)
  {
    var ds := DecimalDigits(m);
    ReadsDigits(text, ds, tail, ignore, 0);
  }

  lemma ParsesFrom(data: seq<byte>, junk: seq<byte>, number: seq<byte>, mode: LookaheadMode, ignore: byte, value: int32, tail: seq<byte>)
    requires forall i | 0 <= i < |junk| :: !Starts(junk[i], false) && Skippable(junk[i], mode)
    requires number != [] && Starts(number[0], false) && number[0] != ignore
    requires data == junk + number
    requires ParseTail(number[1..], ignore, Accumulate(0, number[0], ignore)) == (value, tail)
    ensures ParsedInt(data, mode, ignore) == (if number[0] == '-' as int then Wrap32(-(value as int)) else value, tail)
  {
    SkipsJunk(junk, number, mode, false);
  }

  lemma SplitNumber(junk: seq<byte>, text: seq<byte>, tail: seq<byte>)
    requires text != []
    ensures junk + text + tail == junk + (text + tail)
    ensures (text + tail)[0] == text[0] && (text + tail)[1..] == text[1..] + tail
  {
  }

  /**
   * Round trip. `text` is what `print(n)` wrote, possibly with ignored characters put in after its
   * first one. Whatever skippable junk precedes it, `parseInt` reads back `n`, for every 32-bit `n`,
   * and leaves the stream at the character that ended the number.
   */
  lemma PrintThenParse(n: int32, junk: seq<byte>, text: seq<byte>, tail: seq<byte>, mode: LookaheadMode, ignore: byte)
    requires forall i | 0 <= i < |junk| ::
               && junk[i] != '-' as int && !('0' as int <= junk[i] <= '9' as int)
               && (mode.SkipAll? || (mode.SkipWhitespace? && junk[i] in [' ' as int, '\t' as int, '\r' as int, '\n' as int]))
    requires ignore != '-' as int && !('0' as int <= ignore <= '9' as int)
    requires text != [] && text[0] != ignore && Without(text, ignore) == Decimal(n)
    requires tail != [] ==> !('0' as int <= tail[0] <= '9' as int) && tail[0] != ignore
    ensures ParsedInt(junk + text + tail, mode, ignore) == (n, tail)
  {
    ReadsDecimal(n, text, tail, ignore);
    SplitNumber(junk, text, tail);
    ParsesFrom(junk + text + tail, junk, text + tail, mode, ignore, Wrap32(if n < 0 then -(n as int) else n), tail);
  }

  lemma ReadsDecimal(n: int32, text: seq<byte>, tail: seq<byte>, ignore: byte)
    requires !Starts(ignore, false) && Terminates(tail, ignore)
    requires text != [] && text[0] != ignore && Without(text, ignore) == Decimal(n)
    ensures if n < 0 then text[0] == '-' as int else IsDigit(text[0])
    ensures ParseTail(text[1..] + tail, ignore, Accumulate(0, text[0], ignore)) == (Wrap32(if n < 0 then -(n as int) else n), tail)
  {
    hide *;
    WithoutFirst(text, ignore);
    DecimalIs(n);
    AfterSign(ignore);
    if n < 0 {
      SignFirst(text[0], Without(text[1..], ignore), Text(Numeral(-(n as int), 10)));
      ReadsAfterSign(-(n as int), text[1..], tail, ignore);
    } else {
      ReadsNumeral(n, text, tail, ignore);
    }
  }

  lemma WithoutFirst(text: seq<byte>, ignore: byte)
    requires text != [] && text[0] != ignore
    ensures Without(text, ignore) == [text[0]] + Without(text[1..], ignore)
  {
  }

  lemma DecimalIs(n: int)
    ensures Decimal(n) == if n < 0 then ['-' as int] + Text(Numeral(-n, 10)) else Text(Numeral(n, 10))
  {
  }

  lemma AfterSign(ignore: byte)
    requires !Starts(ignore, false)
    ensures !IsDigit(ignore) && Accumulate(0, '-' as int, ignore) == 0
  {
  }

  lemma SignFirst(c: byte, digits: seq<byte>, numeral: seq<byte>)
    requires [c] + digits == ['-' as int] + numeral
    ensures c == '-' as int && digits == numeral
  {
    assert ([c] + digits)[0] == c && ([c] + digits)[1..] == digits;
  }
}
