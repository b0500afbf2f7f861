/** The integer printer `mini_itoa` and the number parser `debug_str2uint`, and that each undoes the other. */
module Numerals {
  import opened Division

  const U32: nat := 0x1_0000_0000
  const U64_MAX: nat := 0xFFFF_FFFF_FFFF_FFFF

  // ---- digits -----------------------------------------------------------------------------------------------------

  function DigitChar(d: nat, uppercase: bool): char
    requires d < 16
  {
    if d < 10 then '0' + d as char else (if uppercase then 'A' else 'a') + (d - 10) as char
  }

  /** The value of a digit character, 99 for anything else. */
  function DigitValue(c: char): nat {
    if '0' <= c <= '9' then c as int - '0' as int
    else if 'a' <= c <= 'f' then c as int - 'a' as int + 10
    else if 'A' <= c <= 'F' then c as int - 'A' as int + 10
    else 99
  }

  /** The number a run of digits stands for, most significant first. */
  function Eval(s: string, radix: nat): nat {
    if s == [] then 0 else Eval(s[..|s| - 1], radix) * radix + DigitValue(s[|s| - 1])
  }

  predicate AllDigits(s: string, radix: nat) {
    forall i | 0 <= i < |s| :: DigitValue(s[i]) < radix
  }

  /** The usual text of a number: no leading zero but for zero itself. */
  function Digits(v: nat, radix: nat, uppercase: bool): (s: string)
    requires 2 <= radix <= 16
    ensures s != []
  {
    (if v < radix then [] else Digits(Quot(v, radix), radix, uppercase)) + [DigitChar(Rem(v, radix), uppercase)]
  }

  lemma DigitRoundTrip(d: nat, uppercase: bool)
    requires d < 16
    ensures DigitValue(DigitChar(d, uppercase)) == d
  {
  }

  lemma {:induction false} DigitsMean(v: nat, radix: nat, uppercase: bool)
    requires 2 <= radix <= 16
    ensures Eval(Digits(v, radix, uppercase), radix) == v
  {
    var s := Digits(v, radix, uppercase);
    QuotTimes(v, radix);
    DigitRoundTrip(Rem(v, radix), uppercase);
    if v < radix {
      assert s == [DigitChar(v, uppercase)] && s[..0] == [];
      assert Eval(s[..0], radix) == 0;
    } else {
      DigitsMean(Quot(v, radix), radix, uppercase);
      assert s[..|s| - 1] == Digits(Quot(v, radix), radix, uppercase);
    }
  }

  lemma DigitsJoin(a: string, b: string, radix: nat)
    requires AllDigits(a, radix) && AllDigits(b, radix)
    ensures AllDigits(a + b, radix)
  {
  }

  lemma {:induction false} DigitsAreDigits(v: nat, radix: nat, uppercase: bool)
    requires 2 <= radix <= 16
    ensures AllDigits(Digits(v, radix, uppercase), radix)
    ensures v > 0 ==> DigitValue(Digits(v, radix, uppercase)[0]) > 0
  {
    var q, c := Quot(v, radix), DigitChar(Rem(v, radix), uppercase);
    DigitRoundTrip(Rem(v, radix), uppercase);
    if v >= radix {
      DigitsAreDigits(q, radix, uppercase);
      DigitsJoin(Digits(q, radix, uppercase), [c], radix);
    }
  }

  /** Only zero is written with a leading zero. */
  lemma DigitsOfZero(radix: nat, uppercase: bool)
    requires 2 <= radix <= 16
    ensures Digits(0, radix, uppercase) == "0"
  {
  }

  // ---- the printer ------------------------------------------------------------------------------------------------

  /** A 32-bit signed argument taken as an unsigned number: its magnitude, or all 32 bits if printed unsigned. */
  function Magnitude(value: int, unsig: bool): nat
    requires -0x8000_0000 <= value < 0x8000_0000
  {
    if value < 0 then (if unsig then value + U32 else -value) else value
  }

  function Zeros(n: nat): string {
    seq(n, _ => '0')
  }

  /** What `mini_itoa` prints: sign, zeros up to the padding, digits. */
  function Text(value: int, radix: nat, uppercase: bool, unsig: bool, zeroPad: nat): string
    requires -0x8000_0000 <= value < 0x8000_0000 && 2 <= radix <= 16
  {
    var digits := Digits(Magnitude(value, unsig), radix, uppercase);
    (if value < 0 && !unsig then "-" else "") +
    Zeros(if |digits| < zeroPad then zeroPad - |digits| else 0) + digits
  }

  function Reverse(s: string): (r: string)
    ensures |r| == |s| && forall i | 0 <= i < |s| :: r[i] == s[|s| - 1 - i]
  {
    seq(|s|, i requires 0 <= i < |s| => s[|s| - 1 - i])
  }

  lemma ReverseParts(a: string, b: string)
    ensures Reverse(a + b) == Reverse(b) + Reverse(a) && Reverse(Reverse(a)) == a
  {
  }

  lemma {:induction false} DigitsLength(v: nat, radix: nat, uppercase: bool)
    requires 2 <= radix <= 16 && v < U32
    ensures |Digits(v, radix, uppercase)| <= 32
  {
    Pow2Octet(0);
    Pow2Octet(8);
    Pow2Octet(16);
    Pow2Octet(24);
    LengthBelow(v, radix, uppercase, 32);
  }

  function Pow2(n: nat): nat {
    if n == 0 then 1 else 2 * Pow2(n - 1)
  }

  lemma Pow2Octet(n: nat)
    ensures Pow2(n + 8) == 256 * Pow2(n)
  {
    assert Pow2(n + 4) == 2 * Pow2(n + 3) == 4 * Pow2(n + 2) == 8 * Pow2(n + 1) == 16 * Pow2(n);
    assert Pow2(n + 8) == 2 * Pow2(n + 7) == 4 * Pow2(n + 6) == 8 * Pow2(n + 5) == 16 * Pow2(n + 4);
  }

  lemma {:induction false} LengthBelow(v: nat, radix: nat, uppercase: bool, n: nat)
    requires 2 <= radix <= 16 && v < Pow2(n) && n >= 1
    ensures |Digits(v, radix, uppercase)| <= n
    decreases n
  {
    if v >= radix {
      LengthBelow(Quot(v, radix), radix, uppercase, n - 1);
    }
  }

  /** `mini_itoa`: the digits are written backwards, padded, signed and then reversed in place. A radix over 16 is
      refused. */
  method MiniItoa(value: int, radix: nat, uppercase: bool, unsig: bool, buffer: array<char>, zeroPad: nat)
    returns (len: nat)
    requires -0x8000_0000 <= value < 0x8000_0000 && 2 <= radix
    requires buffer.Length >= 34 && buffer.Length >= zeroPad + 2
    modifies buffer
    ensures radix > 16 ==> len == 0 && buffer[..] == old(buffer[..])
    ensures radix <= 16 ==> len < buffer.Length && buffer[len] == '\0'
    ensures radix <= 16 ==> buffer[..len] == Text(value, radix, uppercase, unsig, zeroPad)
  {
    if radix > 16 {
      return 0;
    }
    var v := Magnitude(value, unsig);
    var n := WriteDigits(v, radix, uppercase, buffer);
    DigitsLength(v, radix, uppercase);
    ghost var digits := Digits(v, radix, uppercase);
    ghost var pad := if n < zeroPad then zeroPad - n else 0;
    n := PadZeros(buffer, n, zeroPad);
    ghost var sign := if value < 0 && !unsig then "-" else "";
    if value < 0 && !unsig {
      n := PutChar(buffer, n, '-');
    }
    assert buffer[..n] == Reverse(digits) + Zeros(pad) + sign;
    TextReversed(value, radix, uppercase, unsig, zeroPad, buffer[..n]);
    Terminate(buffer, n);
    len := n;
  }

  /** The end of the text, and the text turned round. */
  method Terminate(buffer: array<char>, len: nat)
    requires len < buffer.Length
    modifies buffer
    ensures buffer[..len] == Reverse(old(buffer[..len])) && buffer[len] == '\0'
  {
    buffer[len] := '\0';
    ReverseInPlace(buffer, len);
    assert buffer[len..][0] == '\0';
  }

  /** The padding: zeros behind the reversed digits. */
  method PadZeros(buffer: array<char>, len: nat, zeroPad: nat) returns (n: nat)
    requires len <= buffer.Length && buffer.Length >= zeroPad
    modifies buffer
    ensures n == (if len < zeroPad then zeroPad else len) <= buffer.Length
    ensures buffer[..n] == old(buffer[..len]) + Zeros(n - len)
  {
    n := len;
    while n < zeroPad
      invariant len <= n && (n <= zeroPad || n == len) && n <= buffer.Length
      invariant buffer[..n] == old(buffer[..len]) + Zeros(n - len)
    {
      assert Zeros(n + 1 - len) == Zeros(n - len) + ['0'];
      n := PutChar(buffer, n, '0');
    }
  }

  /** Digits, padding and sign as they are written, turned round. */
  lemma TextReversed(value: int, radix: nat, uppercase: bool, unsig: bool, zeroPad: nat, back: string)
    requires -0x8000_0000 <= value < 0x8000_0000 && 2 <= radix <= 16
    requires var digits := Digits(Magnitude(value, unsig), radix, uppercase);
      var pad := if |digits| < zeroPad then zeroPad - |digits| else 0;
      back == Reverse(digits) + Zeros(pad) + if value < 0 && !unsig then "-" else ""
    ensures Reverse(back) == Text(value, radix, uppercase, unsig, zeroPad)
  {
    var digits := Digits(Magnitude(value, unsig), radix, uppercase);
    var zeros := Zeros(if |digits| < zeroPad then zeroPad - |digits| else 0);
    var sign := if value < 0 && !unsig then "-" else "";
    ReverseText(digits, zeros, sign);
  }

  lemma ReverseText(digits: string, zeros: string, sign: string)
    requires |sign| <= 1 && forall i | 0 <= i < |zeros| :: zeros[i] == '0'
    ensures Reverse(Reverse(digits) + zeros + sign) == sign + zeros + digits
  {
  }

  /** The digits of `v`, least significant first. */
  method WriteDigits(v: nat, radix: nat, uppercase: bool, buffer: array<char>) returns (n: nat)
    requires 2 <= radix <= 16 && v < U32 && buffer.Length >= 34
    modifies buffer
    ensures n == |Digits(v, radix, uppercase)| <= 32 && buffer[..n] == Reverse(Digits(v, radix, uppercase))
  {
    DigitsLength(v, radix, uppercase);
    ghost var all := Digits(v, radix, uppercase);
    var left: nat := v;
    n := 0;
    ghost var written := "";
    assert Reverse("") == "" && all + "" == all;
    while true
      invariant n == |written| < buffer.Length && buffer[..n] == written
      invariant n + |Digits(left, radix, uppercase)| == |all| <= 32
      invariant all == Digits(left, radix, uppercase) + Reverse(written)
      decreases left
    {
      QuotRemAre(left, radix);
      PrependDigit(left, radix, uppercase, written);
      n := PutChar(buffer, n, DigitChar(left % radix, uppercase));
      written := written + [DigitChar(left % radix, uppercase)];
      left := left / radix;
      if left == 0 {
        break;
      }
    }
    ReverseParts(written, "");
  }

  /** `*(pbuffer++) = c`. */
  method PutChar(buffer: array<char>, n: nat, c: char) returns (n': nat)
    requires n < buffer.Length
    modifies buffer
    ensures n' == n + 1 && buffer[..n'] == old(buffer[..n]) + [c]
  {
    buffer[n] := c;
    n' := n + 1;
  }

  /** Moving the last digit from the number to the written part. */
  lemma PrependDigit(left: nat, radix: nat, uppercase: bool, done: string)
    requires 2 <= radix <= 16
    ensures var c, q := DigitChar(Rem(left, radix), uppercase), Quot(left, radix);
      && (q == 0 <==> left < radix)
      && |Digits(left, radix, uppercase)| == 1 + (if q == 0 then 0 else |Digits(q, radix, uppercase)|)
      && Digits(left, radix, uppercase) + Reverse(done) ==
           (if q == 0 then "" else Digits(q, radix, uppercase)) + Reverse(done + [c])
  {
    var front := if left < radix then "" else Digits(Quot(left, radix), radix, uppercase);
    QuotIsZero(left, radix);
    MoveDigit(front, DigitChar(Rem(left, radix), uppercase), done);
  }

  lemma QuotIsZero(v: nat, radix: nat)
    requires radix >= 2
    ensures Quot(v, radix) == 0 <==> v < radix
  {
  }

  lemma MoveDigit(front: string, c: char, done: string)
    ensures (front + [c]) + Reverse(done) == front + Reverse(done + [c])
  {
    ReverseParts(done, [c]);
    assert Reverse([c]) == [c];
    assert (front + [c]) + Reverse(done) == front + ([c] + Reverse(done));
  }

  method ReverseInPlace(buffer: array<char>, len: nat)
    requires len <= buffer.Length
    modifies buffer
    ensures buffer[..len] == Reverse(old(buffer[..len])) && buffer[len..] == old(buffer[len..])
  {
    ghost var was := buffer[..];
    for i := 0 to len / 2
      invariant forall k | 0 <= k < i :: buffer[k] == was[len - k - 1] && buffer[len - k - 1] == was[k]
      invariant forall k | i <= k < len - i :: buffer[k] == was[k]
      invariant buffer[len..] == was[len..]
    {
      var j := buffer[i];
      buffer[i] := buffer[len - i - 1];
      buffer[len - i - 1] := j;
    }
  }

  // ---- the parser -------------------------------------------------------------------------------------------------

  /** How many digits of this radix `s` starts with. */
  function Span(s: string, radix: nat): (n: nat)
    ensures n <= |s| && AllDigits(s[..n], radix) && (n < |s| ==> DigitValue(s[n]) >= radix)
  {
    if s == [] || DigitValue(s[0]) >= radix then 0
    else
      var n := Span(s[1..], radix);
      assert s[..n + 1] == [s[0]] + s[1..][..n];
      n + 1
  }

  /** `strtoull` on a text that starts with a digit: the number, saturated, and the rest. In base 16 the prefix `0x`
      is skipped if a digit follows it. */
  function Strtoull(s: string, base: nat): (nat, string)
  {
    var skip := if base == 16 && |s| >= 3 && s[0] == '0' && (s[1] == 'x' || s[1] == 'X') && DigitValue(s[2]) < 16
                then 2 else 0;
    var n := Span(s[skip..], base);
    var v := Eval(s[skip..skip + n], base);
    (if v > U64_MAX then U64_MAX else v, s[skip + n..])
  }

  /** `debug_str2uint`: a status, and the number when it is 0. */
  function Str2Uint(s: string): (nat, nat) {
    if s == [] then (6, 0)
    else if s[0] == '0' then
      if |s| == 1 then (0, 0)
      else if s[1] == 'X' || s[1] == 'x' then
        var (temp, pend) := Strtoull(s, 16);
        if pend != [] then (1, 0) else if temp > U32 - 1 then (2, 0) else (0, temp)
      else (3, 0)
    else if '1' <= s[0] <= '9' then
      var (temp, pend) := Strtoull(s, 10);
      if pend != [] then (4, 0) else if temp > U32 - 1 then (5, 0) else (0, temp)
    else (6, 0)
  }

  lemma SpanAll(s: string, radix: nat)
    ensures Span(s, radix) == |s| <==> AllDigits(s, radix)
  {
    assert s[..|s|] == s;
    var n := Span(s, radix);
    assert n < |s| ==> DigitValue(s[n]) >= radix;
  }

  /** The texts it accepts: `0`, a decimal number without leading zero, or `0x` and at least one hexadecimal digit. */
  predicate Accepted(s: string, v: nat) {
    || (s == "0" && v == 0)
    || (s != [] && '1' <= s[0] <= '9' && AllDigits(s, 10) && v == Eval(s, 10))
    || (|s| >= 3 && s[0] == '0' && (s[1] == 'x' || s[1] == 'X') && AllDigits(s[2..], 16) && v == Eval(s[2..], 16))
  }

  /** The parser succeeds exactly on those texts whose number fits 32 bits, and yields that number. */
  lemma ParserExact(s: string, v: nat)
    ensures Str2Uint(s) == (0, v) <==> Accepted(s, v) && v < U32
  {
    SpanAll(s, 10);
    assert s[0..] == s && s[..|s|] == s;
    if |s| >= 2 && s[0] == '0' && (s[1] == 'x' || s[1] == 'X') {
      HexExact(s, v);
    }
  }

  lemma HexExact(s: string, v: nat)
    requires |s| >= 2 && s[0] == '0' && (s[1] == 'x' || s[1] == 'X')
    ensures Str2Uint(s) == (0, v) <==> |s| >= 3 && AllDigits(s[2..], 16) && v == Eval(s[2..], 16) && v < U32
  {
    assert s[0..] == s;
    if |s| == 2 || DigitValue(s[2]) >= 16 {
      assert DigitValue(s[1]) >= 16;
      assert Span(s[1..], 16) == 0;
      assert |s| >= 3 ==> s[2..][0] == s[2];
    } else {
      SpanAll(s[2..], 16);
      assert s[2..2 + |s[2..]|] == s[2..];
    }
  }

  // ---- round trip -------------------------------------------------------------------------------------------------

  /** The 32-bit pattern of `v` as the signed argument the printer takes. */
  function AsSigned(v: nat): int
    requires v < U32
  {
    if v < 0x8000_0000 then v else v - U32
  }

  /** Every 32-bit number printed in unsigned decimal without padding, or in hexadecimal behind `0x`, is parsed back
      to itself. */
  lemma PrintedNumbersParse(v: nat, uppercase: bool)
    requires v < U32
    ensures Str2Uint(Text(AsSigned(v), 10, uppercase, true, 0)) == (0, v)
    ensures Str2Uint("0x" + Text(AsSigned(v), 16, uppercase, true, 0)) == (0, v)
  {
    PlainText(v, 10, uppercase);
    PlainText(v, 16, uppercase);
    DecimalAccepted(v, uppercase);
    HexAccepted(v, uppercase);
    ParserExact(Digits(v, 10, uppercase), v);
    ParserExact("0x" + Digits(v, 16, uppercase), v);
  }

  lemma PlainText(v: nat, radix: nat, uppercase: bool)
    requires v < U32 && 2 <= radix <= 16
    ensures Text(AsSigned(v), radix, uppercase, true, 0) == Digits(v, radix, uppercase)
  {
    assert Magnitude(AsSigned(v), true) == v;
  }

  lemma DecimalAccepted(v: nat, uppercase: bool)
    ensures Accepted(Digits(v, 10, uppercase), v)
  {
    DigitsMean(v, 10, uppercase);
    DigitsAreDigits(v, 10, uppercase);
    DigitsOfZero(10, uppercase);
    DecimalForm(Digits(v, 10, uppercase), v);
  }

  lemma DecimalForm(s: string, v: nat)
    requires s != [] && AllDigits(s, 10) && Eval(s, 10) == v && if v == 0 then s == "0" else DigitValue(s[0]) > 0
    ensures Accepted(s, v)
  {
  }

  lemma HexAccepted(v: nat, uppercase: bool)
    ensures Accepted("0x" + Digits(v, 16, uppercase), v)
  {
    DigitsMean(v, 16, uppercase);
    DigitsAreDigits(v, 16, uppercase);
    assert ("0x" + Digits(v, 16, uppercase))[2..] == Digits(v, 16, uppercase);
  }

  lemma {:induction false} EvalPadded(n: nat, s: string, radix: nat)
    requires 2 <= radix && s != []
    ensures Eval(Zeros(n) + s, radix) == Eval(s, radix)
    decreases |s|
  {
    var t := Zeros(n) + s;
    assert t[..|t| - 1] == Zeros(n) + s[..|s| - 1];
    if |s| > 1 {
      EvalPadded(n, s[..|s| - 1], radix);
    } else {
      EvalZeros(n, radix);
      assert Zeros(n) + [] == Zeros(n);
    }
  }

  lemma {:induction false} EvalZeros(n: nat, radix: nat)
    ensures Eval(Zeros(n), radix) == 0
  {
    if n > 0 {
      assert Zeros(n)[..n - 1] == Zeros(n - 1);
      EvalZeros(n - 1, radix);
    }
  }

  /** The zeros and digits of a printed number. */
  function Unsigned(u: nat, radix: nat, uppercase: bool, zeroPad: nat): string
    requires 2 <= radix <= 16
  {
    var digits := Digits(u, radix, uppercase);
    Zeros(if |digits| < zeroPad then zeroPad - |digits| else 0) + digits
  }

  lemma ZerosAreDigits(n: nat, radix: nat)
    requires radix >= 2
    ensures AllDigits(Zeros(n), radix)
  {
    assert DigitValue('0') == 0;
  }

  lemma PaddedMeans(digits: string, pad: nat, radix: nat)
    requires radix >= 2 && digits != [] && AllDigits(digits, radix)
    ensures Eval(Zeros(pad) + digits, radix) == Eval(digits, radix) && AllDigits(Zeros(pad) + digits, radix)
  {
    ZerosAreDigits(pad, radix);
    DigitsJoin(Zeros(pad), digits, radix);
    EvalPadded(pad, digits, radix);
  }

  lemma UnsignedMeans(u: nat, radix: nat, uppercase: bool, zeroPad: nat)
    requires 2 <= radix <= 16
    ensures var s := Unsigned(u, radix, uppercase, zeroPad);
      Eval(s, radix) == u && AllDigits(s, radix) && |s| >= zeroPad
  {
    DigitsMean(u, radix, uppercase);
    DigitsAreDigits(u, radix, uppercase);
    PaddedTo(Digits(u, radix, uppercase), u, radix, zeroPad);
  }

  lemma PaddedTo(digits: string, u: nat, radix: nat, zeroPad: nat)
    requires radix >= 2 && digits != [] && AllDigits(digits, radix) && Eval(digits, radix) == u
    ensures var s := Zeros(if |digits| < zeroPad then zeroPad - |digits| else 0) + digits;
      Eval(s, radix) == u && AllDigits(s, radix) && |s| >= zeroPad
  {
    PaddedMeans(digits, if |digits| < zeroPad then zeroPad - |digits| else 0, radix);
  }

  lemma TextIs(value: int, radix: nat, uppercase: bool, unsig: bool, zeroPad: nat)
    requires -0x8000_0000 <= value < 0x8000_0000 && 2 <= radix <= 16
    ensures Text(value, radix, uppercase, unsig, zeroPad) ==
            (if value < 0 && !unsig then "-" else "") + Unsigned(Magnitude(value, unsig), radix, uppercase, zeroPad)
  {
  }

  /** No more digits than asked for, unless the first of them counts. */
  lemma NoNeedlessZeros(u: nat, radix: nat, uppercase: bool, zeroPad: nat)
    requires 2 <= radix <= 16
    ensures var s := Unsigned(u, radix, uppercase, zeroPad); |s| > zeroPad && |s| > 1 ==> DigitValue(s[0]) > 0
  {
    DigitsAreDigits(u, radix, uppercase);
    DigitsOfZero(radix, uppercase);
    ShortOfZeros(Digits(u, radix, uppercase));
  }

  lemma ShortOfZeros(digits: string)
    ensures Zeros(0) + digits == digits
  {
  }

  /** Letters are in the case asked for. */
  predicate InCase(s: string, uppercase: bool) {
    forall i | 0 <= i < |s| :: '0' <= s[i] <= '9' || (if uppercase then 'A' <= s[i] <= 'F' else 'a' <= s[i] <= 'f')
  }

  lemma {:induction false} DigitsInCase(v: nat, radix: nat, uppercase: bool)
    requires 2 <= radix <= 16
    ensures InCase(Digits(v, radix, uppercase), uppercase)
  {
    if v >= radix {
      DigitsInCase(Quot(v, radix), radix, uppercase);
    }
  }

  lemma UnsignedInCase(u: nat, radix: nat, uppercase: bool, zeroPad: nat)
    requires 2 <= radix <= 16
    ensures InCase(Unsigned(u, radix, uppercase, zeroPad), uppercase)
  {
    DigitsInCase(u, radix, uppercase);
    CaseJoin(Digits(u, radix, uppercase), if |Digits(u, radix, uppercase)| < zeroPad
                                          then zeroPad - |Digits(u, radix, uppercase)| else 0, uppercase);
  }

  lemma CaseJoin(digits: string, n: nat, uppercase: bool)
    requires InCase(digits, uppercase)
    ensures InCase(Zeros(n) + digits, uppercase)
  {
  }

  /** In every radix from 2 to 16, padded or not: printed signed, the text is a minus sign exactly for a negative number
      and digits that evaluate to its absolute value; printed unsigned, digits that evaluate to its 32-bit pattern. They
      are as many as asked for, or begin with one that counts, and letters are in the case asked for. */
  lemma PrintedTextMeans(value: int, radix: nat, uppercase: bool, unsig: bool, zeroPad: nat, text: string)
    requires -0x8000_0000 <= value < 0x8000_0000 && 2 <= radix <= 16
    requires text == Text(value, radix, uppercase, unsig, zeroPad)
    ensures var minus := value < 0 && !unsig;
      && text != [] && (text[0] == '-' <==> minus)
      && var digits := if minus then text[1..] else text;
      && AllDigits(digits, radix) && InCase(digits, uppercase)
      && Eval(digits, radix) == (if minus then -value else if value < 0 then value + U32 else value)
      && |digits| >= zeroPad && (|digits| > zeroPad && |digits| > 1 ==> DigitValue(digits[0]) > 0)
  {
    var u := Magnitude(value, unsig);
    var s := Unsigned(u, radix, uppercase, zeroPad);
    UnsignedMeans(u, radix, uppercase, zeroPad);
    NoNeedlessZeros(u, radix, uppercase, zeroPad);
    UnsignedInCase(u, radix, uppercase, zeroPad);
    TextIs(value, radix, uppercase, unsig, zeroPad);
    UnsignedSome(u, radix, uppercase, zeroPad);
    assert ("-" + s)[1..] == s && "" + s == s;
    assert DigitValue('-') == 99;
  }

  lemma UnsignedSome(u: nat, radix: nat, uppercase: bool, zeroPad: nat)
    requires 2 <= radix <= 16
    ensures Unsigned(u, radix, uppercase, zeroPad) != []
  {
  }

  // ---- what the parser refuses ------------------------------------------------------------------------------------

  predicate Prefixed(s: string) {
    |s| >= 2 && s[0] == '0' && (s[1] == 'x' || s[1] == 'X')
  }

  predicate Hexadecimal(s: string) {
    Prefixed(s) && |s| >= 3 && AllDigits(s[2..], 16)
  }

  predicate Counted(s: string) {
    s != [] && '1' <= s[0] <= '9'
  }

  predicate Decimal(s: string) {
    Counted(s) && AllDigits(s, 10)
  }

  /** Each status says exactly what is wrong. */
  lemma StatusMeans(s: string)
    ensures var code := Str2Uint(s).0;
      && (code == 1 <==> Prefixed(s) && !Hexadecimal(s))
      && (code == 2 <==> Hexadecimal(s) && Eval(s[2..], 16) >= U32)
      && (code == 3 <==> |s| >= 2 && s[0] == '0' && !Prefixed(s))
      && (code == 4 <==> Counted(s) && !Decimal(s))
      && (code == 5 <==> Decimal(s) && Eval(s, 10) >= U32)
      && (code == 6 <==> s == [] || !('0' <= s[0] <= '9'))
  {
    SpanAll(s, 10);
    assert s[0..] == s && s[..|s|] == s;
    if Prefixed(s) {
      HexStatus(s);
    }
  }

  lemma HexStatus(s: string)
    requires Prefixed(s)
    ensures var code := Str2Uint(s).0;
      code == if !Hexadecimal(s) then 1 else if Eval(s[2..], 16) >= U32 then 2 else 0
  {
    assert s[0..] == s;
    if |s| == 2 || DigitValue(s[2]) >= 16 {
      assert DigitValue(s[1]) >= 16;
      assert Span(s[1..], 16) == 0;
      assert |s| >= 3 ==> s[2..][0] == s[2];
    } else {
      SpanAll(s[2..], 16);
      assert s[2..2 + |s[2..]|] == s[2..];
    }
  }
}
