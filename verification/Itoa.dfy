/** `ltoa` and `ultoa` of `itoa.c`: radix numerals built backwards in a scratch buffer. */
module Itoa {
  import opened Bytes
  import opened Numerals
  import opened Printing

  /** `i < 10 ? i + '0' : i + 'a' - 10`, stored in a `char`. */
  function RadixChar(d: nat): (c: byte)
    ensures d < 36 ==> CharValue(c, 'a' as int) == Some(d)
  {
    if d < 10 then d + '0' as int else (d + 'a' as int - 10) % 256
  }

  /** The value of a text as a reader computes it that accepts lower-case letters, and a sign in front. */
  function EvaluateSigned(text: seq<byte>, radix: nat): Option<int> {
    var negative := text != [] && text[0] == '-' as int;
    match Evaluate(if negative then text[1..] else text, radix, 'a' as int)
    case Some(v) => var n: int := if negative then -(v as int) else v; Some(n)
    case None => None
  }

  function RadixText(ds: seq<nat>): (t: seq<byte>)
    ensures |t| == |ds| && forall i | 0 <= i < |t| :: t[i] == RadixChar(ds[i])
  {
    seq(|ds|, i requires 0 <= i < |ds| => RadixChar(ds[i]))
  }

  /** The text of an unsigned number, and of a signed one: a sign is written in radix 10 only. */
  function UnsignedText(n: uint32, radix: int): seq<byte>
    requires 2 <= radix <= 36
  {
    RadixText(Numeral(n, radix))
  }

  function SignedText(n: int32, radix: int): seq<byte>
    requires 2 <= radix <= 36
  {
    if radix == 10 && n < 0 then ['-' as int] + UnsignedText(-(n as int), radix) else UnsignedText(ToUnsigned(n), radix)
  }

  /** Round trip: `ultoa` in every radix. Every character is a digit of the radix, and only zero starts with a zero. */
  lemma UltoaRoundTrip(n: uint32, radix: int)
    requires 2 <= radix <= 36
    ensures var text := UnsignedText(n, radix);
            && Evaluate(text, radix, 'a' as int) == Some(n as nat)
            && 1 <= |text| <= 32 && (text[0] == '0' as int ==> n == 0 && |text| == 1)
  {
    var ds := Numeral(n, radix);
    NumeralMeaning(ds, n, radix);
    EvaluateText(RadixText(ds), ds, radix, 'a' as int);
    Fits32Bits(n, radix);
  }

  /** Round trip: `ltoa` gives back the number in radix 10, and its unsigned image in the others. */
  lemma LtoaRoundTrip(n: int32, radix: int)
    requires 2 <= radix <= 36
    ensures EvaluateSigned(SignedText(n, radix), radix) == Some(if radix == 10 then n as int else ToUnsigned(n))
    ensures '-' as int in SignedText(n, radix) <==> radix == 10 && n < 0
  {
    var u: uint32 := if radix == 10 && n < 0 then -(n as int) else ToUnsigned(n);
    var text := UnsignedText(u, radix);
    UltoaRoundTrip(u, radix);
    NumeralMeaning(Numeral(u, radix), u, radix);
    assert forall i | 0 <= i < |text| :: CharValue(text[i], 'a' as int).Some?;
    assert CharValue('-' as int, 'a' as int) == None;
    if radix == 10 && n < 0 {
      assert SignedText(n, radix)[1..] == text;
    }
  }

  /** The digits of `v0`, least significant first, in the 33-byte scratch buffer. */
  method Scratch(tmp: array<byte>, v0: uint32, radix: byte) returns (tp: nat)
    requires 2 <= radix <= 36 && tmp.Length == 33
    modifies tmp
    ensures var ds := Numeral(v0, radix);
            tp == |ds| <= 32 && forall k | 0 <= k < tp :: tmp[k] == RadixChar(ds[tp - 1 - k])
  {
    tp := 0;
    var v: uint32 := v0;
    ghost var ds: seq<nat> := [];
    Fits32Bits(v0, radix);
    while v > 0 || tp == 0
      invariant tp == |ds| <= 32
      invariant if ds == [] then v == v0 else Numeral(v0, radix) == Positional(v, radix) + ds
      invariant forall k | 0 <= k < tp :: tmp[k] == RadixChar(ds[tp - 1 - k])
      decreases v, 33 - tp
    {
      var q, i := DivideBy(v, radix);
      NextDigit(v0, v, radix, q, i, ds, 32);
      ds := [i] + ds;
      tmp[tp] := RadixChar(i);
      tp := tp + 1;
      v := q;
    }
  }

  /** `text` and a terminating zero were stored from `start` on, and nothing else changed. */
  ghost predicate Stores(now: seq<byte>, was: seq<byte>, start: nat, text: seq<byte>) {
    && start + |text| < |now| == |was|
    && forall k | 0 <= k < |now| ::
         now[k] == if start <= k < start + |text| then text[k - start] else if k == start + |text| then 0 else was[k]
  }

  /** `while (tp > tmp) *sp++ = *--tp; *sp = 0;` */
  method CopyReversed(tmp: array<byte>, count: nat, buf: array<byte>, start: nat, ghost text: seq<byte>)
    requires tmp != buf && count == |text| <= tmp.Length && start + count < buf.Length
    requires forall k | 0 <= k < count :: tmp[k] == text[count - 1 - k]
    modifies buf
    ensures Stores(buf[..], old(buf[..]), start, text)
  {
    var tp, sp := count, start;
    while tp > 0
      invariant 0 <= tp <= count && sp == start + count - tp
      invariant forall k | 0 <= k < buf.Length && !(start <= k < sp) :: buf[k] == old(buf[k])
      invariant forall k | start <= k < sp :: buf[k] == text[k - start]
    {
      tp := tp - 1;
      buf[sp] := tmp[tp];
      sp := sp + 1;
    }
    buf[sp] := 0;
  }

  /** `ltoa`; false for the null result. The caller provides room for the text and its terminator. */
  method Ltoa(value: int32, buf: array?<byte>, radix: int) returns (ok: bool)
    requires buf != null && 2 <= radix <= 36 ==> |SignedText(value, radix)| < buf.Length
    modifies if buf == null then {} else {buf}
    ensures ok <==> buf != null && 2 <= radix <= 36
    ensures ok ==> Stores(buf[..], old(buf[..]), 0, SignedText(value, radix))
    ensures !ok && buf != null ==> buf[..] == old(buf[..])
  {
    if buf == null { return false; }
    if radix > 36 || radix <= 1 { return false; }
    var tmp := new byte[33];
    var sign := radix == 10 && value < 0;
    var v: uint32 := if sign then Magnitude(value) else ToUnsigned(value);
    var tp := Scratch(tmp, v, radix);
    ghost var text := UnsignedText(v, radix);
    if sign {
      buf[0] := '-' as int;
      CopyReversed(tmp, tp, buf, 1, text);
    } else {
      CopyReversed(tmp, tp, buf, 0, text);
    }
    return true;
  }

  /** `ultoa`. */
  method Ultoa(value: uint32, buf: array?<byte>, radix: int) returns (ok: bool)
    requires buf != null && 2 <= radix <= 36 ==> |UnsignedText(value, radix)| < buf.Length
    modifies if buf == null then {} else {buf}
    ensures ok <==> buf != null && 2 <= radix <= 36
    ensures ok ==> Stores(buf[..], old(buf[..]), 0, UnsignedText(value, radix))
    ensures !ok && buf != null ==> buf[..] == old(buf[..])
  {
    if buf == null { return false; }
    if radix > 36 || radix <= 1 { return false; }
    var tmp := new byte[33];
    var tp := Scratch(tmp, value, radix);
    CopyReversed(tmp, tp, buf, 0, UnsignedText(value, radix));
    return true;
  }
}
