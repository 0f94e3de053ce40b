/** pugixml.cpp, string_to_integer and integer_to_string: conversions between
    text and integers of 16, 32 or 64 bits, on arithmetic that wraps around. */
module Integers {
  import opened Bytes
  import opened Unescape
  import opened Arithmetic

  const MINUS: byte := 45
  const PLUS: byte := 43
  const ZERO: byte := 48

  // The widths string_to_integer is made for, as sizeof(U).
  predicate IsSize(size: nat) {
    size == 2 || size == 4 || size == 8
  }

  // The number of values of the unsigned type.
  function Range(size: nat): (n: int)
    requires IsSize(size)
    ensures 0 < n
  {
    if size == 2 then 0x1_0000 else if size == 4 then 0x1_0000_0000 else 0x1_0000_0000_0000_0000
  }

  // ---------------------------------------------------------------------
  // What a text denotes, without limits.

  function Shift(hex: bool, x: int): int {
    if hex then 16 * x else 10 * x
  }

  predicate IsDigit(c: byte, hex: bool) {
    DigitValue(c, hex) >= 0
  }

  predicate AllDigits(b: seq<byte>, i: nat, j: nat, hex: bool) {
    (i < j ==> j <= |b|) && forall k :: i <= k < j ==> IsDigit(b[k], hex)
  }

  function DigitsEnd(b: seq<byte>, i: nat, hex: bool): (e: nat)
    ensures i <= e && !IsDigit(ByteAt(b, e), hex) && AllDigits(b, i, e, hex)
    decreases |b| - i
  {
    if i < |b| && IsDigit(b[i], hex) then DigitsEnd(b, i + 1, hex) else i
  }

  // The number written with the digits from i to j.
  function Digits(b: seq<byte>, i: nat, j: nat, hex: bool): (v: nat)
    requires AllDigits(b, i, j, hex)
    decreases j
  {
    if j <= i then 0 else Shift(hex, Digits(b, i, j - 1, hex)) + DigitValue(b[j - 1], hex)
  }

  // Where the sign is.
  function SignAt(b: seq<byte>): nat {
    SpaceRun(b, 0)
  }

  function AfterSign(b: seq<byte>): nat {
    SignAt(b) + if ByteAt(b, SignAt(b)) == PLUS || ByteAt(b, SignAt(b)) == MINUS then 1 else 0
  }

  predicate IsHex(b: seq<byte>) {
    ByteAt(b, AfterSign(b)) == ZERO && (ByteAt(b, AfterSign(b) + 1) == 120 || ByteAt(b, AfterSign(b) + 1) == 88)
  }

  function FirstDigit(b: seq<byte>): nat {
    AfterSign(b) + if IsHex(b) then 2 else 0
  }

  function Magnitude(b: seq<byte>): (v: nat) {
    Digits(b, FirstDigit(b), DigitsEnd(b, FirstDigit(b), IsHex(b)), IsHex(b))
  }

  // White space, a sign, perhaps 0x, digits.
  function Number(b: seq<byte>): int {
    var v: int := Magnitude(b);
    if ByteAt(b, SignAt(b)) == MINUS then -v else v
  }

  function Clamp(x: int, lo: int, hi: int): (r: int)
    requires lo <= hi
    ensures lo <= r <= hi
  {
    if x < lo then lo else if hi < x then hi else x
  }

  // ---------------------------------------------------------------------
  // How large a number of so many digits is.

  function Power(hex: bool, n: nat): (p: nat)
    ensures 1 <= p
  {
    if n == 0 then 1 else Shift(hex, Power(hex, n - 1))
  }

  lemma {:induction false} DigitsBound(b: seq<byte>, i: nat, j: nat, hex: bool)
    requires i < j && AllDigits(b, i, j, hex)
    ensures var lead, p := DigitValue(b[i], hex), Power(hex, j - i - 1);
            lead * p <= Digits(b, i, j, hex) < (lead + 1) * p
    decreases j
  {
    if i + 1 < j {
      DigitsBound(b, i, j - 1, hex);
      var lead, p := DigitValue(b[i], hex), Power(hex, j - i - 2);
      ShiftProduct(hex, lead, p);
      ShiftProduct(hex, lead + 1, p);
    } else {
      assert Digits(b, i, i, hex) == 0;
    }
  }

  lemma ShiftProduct(hex: bool, x: nat, p: nat)
    ensures x * Shift(hex, p) == Shift(hex, x * p)
  {
  }

  lemma {:induction false} PowerMonotone(hex: bool, m: nat, n: nat)
    requires m <= n
    ensures Power(hex, m) <= Power(hex, n)
    decreases n
  {
    if m < n { PowerMonotone(hex, m, n - 1); }
  }

  lemma {:induction false} LeadingZeros(b: seq<byte>, i: nat, k: nat, j: nat, hex: bool)
    requires i <= k <= j && AllDigits(b, i, j, hex) && forall x :: i <= x < k ==> b[x] == ZERO
    ensures Digits(b, k, j, hex) == Digits(b, i, j, hex)
    decreases j
  {
    if k < j {
      LeadingZeros(b, i, k, j - 1, hex);
    } else if i < j {
      LeadingZeros(b, i, j - 1, j - 1, hex);
    }
  }

  lemma {:induction false} Powers()
    ensures Power(true, 4) == 0x1_0000 && Power(true, 8) == 0x1_0000_0000 && Power(true, 16) == 0x1_0000_0000_0000_0000
    ensures Power(false, 4) == 10_000 && Power(false, 5) == 100_000
    ensures Power(false, 9) == 1_000_000_000 && Power(false, 10) == 10_000_000_000
    ensures Power(false, 19) == 10_000_000_000_000_000_000 && Power(false, 20) == 100_000_000_000_000_000_000
  {
    assert Power(true, 2) == 0x100 && Power(true, 4) == 0x1_0000 && Power(true, 6) == 0x100_0000 && Power(true, 8) == 0x1_0000_0000;
    assert Power(true, 10) == 0x100_0000_0000 && Power(true, 12) == 0x1_0000_0000_0000;
    assert Power(true, 14) == 0x100_0000_0000_0000 && Power(true, 16) == 0x1_0000_0000_0000_0000;
    assert Power(false, 2) == 100 && Power(false, 4) == 10_000 && Power(false, 6) == 1_000_000 && Power(false, 8) == 100_000_000;
    assert Power(false, 10) == 10_000_000_000 && Power(false, 12) == 1_000_000_000_000 && Power(false, 14) == 100_000_000_000_000;
    assert Power(false, 16) == 10_000_000_000_000_000 && Power(false, 18) == 1_000_000_000_000_000_000;
    assert Power(false, 20) == 100_000_000_000_000_000_000;
  }

  // ---------------------------------------------------------------------
  // The overflow tests.

  function MaxDigits10(size: nat): nat {
    if size == 8 then 20 else if size == 4 then 10 else 5
  }

  function MaxLead(size: nat): byte {
    if size == 8 then 49 else if size == 4 then 52 else 54
  }

  // The test on the number of digits, the first digit and the high bit of the
  // wrapped value finds exactly the numbers that do not fit.
  lemma {:induction false} DecimalOverflow(b: seq<byte>, start: nat, s: nat, size: nat, result: nat)
    requires IsSize(size) && start <= s && AllDigits(b, start, s, false)
    requires start < s ==> b[start] != ZERO
    requires result == Digits(b, start, s, false) % Range(size)
    ensures var digits := s - start;
            var overflow := digits >= MaxDigits10(size)
              && !(digits == MaxDigits10(size) && (b[start] < MaxLead(size) || (b[start] == MaxLead(size) && result >= Range(size) / 2)));
            overflow <==> Range(size) <= Digits(b, start, s, false)
  {
    if start < s {
      DigitsBound(b, start, s, false);
      Powers();
      var n := s - start - 1;
      var m := MaxDigits10(size) - 1;
      var v := Digits(b, start, s, false);
      if n < m {
        PowerMonotone(false, n + 1, m);
        AtMostTen(DigitValue(b[start], false) + 1, Power(false, n));
      } else if m < n {
        PowerMonotone(false, m + 1, n);
        AtLeastOne(DigitValue(b[start], false), Power(false, n));
      }
    } else {
      assert Digits(b, start, s, false) == 0;
    }
  }

  lemma AtMostTen(x: nat, p: nat)
    requires x <= 10
    ensures x * p <= 10 * p
  {
  }

  lemma AtLeastOne(x: nat, p: nat)
    requires 1 <= x
    ensures p <= x * p
  {
  }

  lemma {:induction false} HexOverflow(b: seq<byte>, start: nat, s: nat, size: nat)
    requires IsSize(size) && start <= s && AllDigits(b, start, s, true)
    requires start < s ==> b[start] != ZERO
    ensures s - start > 2 * size <==> Range(size) <= Digits(b, start, s, true)
  {
    if start < s {
      DigitsBound(b, start, s, true);
      Powers();
      var n := s - start - 1;
      if n < 2 * size {
        PowerMonotone(true, n + 1, 2 * size);
        AtMostSixteen(DigitValue(b[start], true) + 1, Power(true, n));
      } else {
        PowerMonotone(true, 2 * size, n);
        AtLeastOne(DigitValue(b[start], true), Power(true, n));
      }
    } else {
      assert Digits(b, start, s, true) == 0;
    }
  }

  lemma AtMostSixteen(x: nat, p: nat)
    requires x <= 16
    ensures x * p <= 16 * p
  {
  }

  // ---------------------------------------------------------------------
  // string_to_integer

  // A number as a value of the unsigned type: negative numbers wrap around.
  function Represent(size: nat, x: int): (u: nat)
    requires IsSize(size) && -Range(size) < x < Range(size)
    ensures u < Range(size) && u == x % Range(size)
  {
    if x < 0 then x + Range(size) else x
  }

  // 0 - value in unsigned arithmetic
  function Negate(size: nat, value: int): (u: nat)
    requires IsSize(size) && 0 <= value < Range(size)
    ensures u == Represent(size, -value)
  {
    if value == 0 then 0 else Range(size) - value
  }

  lemma WrapStep(size: nat, hex: bool, r: nat, v: nat, d: nat)
    requires IsSize(size) && r == v % Range(size)
    ensures (Shift(hex, r) + d) % Range(size) == (Shift(hex, v) + d) % Range(size)
  {
    var c := Range(size);
    var q := v / c;
    assert v == c * q + r;
    if hex {
      assert Shift(hex, v) + d == Shift(hex, r) + d + c * (16 * q);
      AddMultiple(16 * r + d, c, 16 * q);
    } else {
      assert Shift(hex, v) + d == Shift(hex, r) + d + c * (10 * q);
      AddMultiple(10 * r + d, c, 10 * q);
    }
  }

  // The loops over digits, on arithmetic modulo the range.
  method ReadDigits(b: seq<byte>, start: nat, hex: bool, size: nat) returns (s: nat, result: nat)
    requires IsSize(size)
    ensures s == DigitsEnd(b, start, hex) && start <= s
    ensures result == Digits(b, start, s, hex) % Range(size)
  {
    s, result := start, 0;
    while IsDigit(ByteAt(b, s), hex)
      invariant start <= s && AllDigits(b, start, s, hex) && DigitsEnd(b, s, hex) == DigitsEnd(b, start, hex)
      invariant result == Digits(b, start, s, hex) % Range(size)
      decreases |b| - s
    {
      WrapStep(size, hex, result, Digits(b, start, s, hex), DigitValue(b[s], hex));
      result := (Shift(hex, result) + DigitValue(b[s], hex)) % Range(size);
      s := s + 1;
    }
  }

  method SkipZeros(b: seq<byte>, i: nat, hex: bool) returns (start: nat)
    ensures i <= start && ByteAt(b, start) != ZERO && AllDigits(b, i, start, hex) && forall x :: i <= x < start ==> b[x] == ZERO
    ensures DigitsEnd(b, start, hex) == DigitsEnd(b, i, hex)
  {
    start := i;
    while ByteAt(b, start) == ZERO
      invariant i <= start && AllDigits(b, i, start, hex) && (forall x :: i <= x < start ==> b[x] == ZERO)
      invariant DigitsEnd(b, start, hex) == DigitsEnd(b, i, hex)
      decreases |b| - start
    {
      start := start + 1;
    }
  }

  // The digits from position i: their value modulo the range, and whether it fits.
  method ReadMagnitude(b: seq<byte>, i: nat, hex: bool, size: nat) returns (result: nat, overflow: bool)
    requires IsSize(size)
    ensures var v := Digits(b, i, DigitsEnd(b, i, hex), hex);
            overflow == (Range(size) <= v) && (!overflow ==> result == v)
  {
    var start := SkipZeros(b, i, hex);
    var s;
    s, result := ReadDigits(b, start, hex, size);
    var digits := s - start;
    LeadingZeros(b, i, start, s, hex);
    if hex {
      HexOverflow(b, start, s, size);
      overflow := digits > size * 2;
    } else {
      DecimalOverflow(b, start, s, size, result);
      overflow := digits >= MaxDigits10(size)
        && !(digits == MaxDigits10(size) && (b[start] < MaxLead(size) || (b[start] == MaxLead(size) && result >= Range(size) / 2)));
    }
  }

  // White space, sign and base.
  method ReadPrefix(value: seq<byte>) returns (s: nat, negative: bool, hex: bool)
    ensures s == FirstDigit(value) && hex == IsHex(value) && (negative <==> ByteAt(value, SignAt(value)) == MINUS)
  {
    s := 0;
    while IsSpace(ByteAt(value, s))
      invariant SpaceRun(value, 0) == s + SpaceRun(value, s)
      decreases |value| - s
    {
      s := s + 1;
    }
    negative := ByteAt(value, s) == MINUS;
    if ByteAt(value, s) == PLUS || ByteAt(value, s) == MINUS { s := s + 1; }
    hex := ByteAt(value, s) == ZERO && (ByteAt(value, s + 1) == 120 || ByteAt(value, s + 1) == 88);
    if hex { s := s + 2; }
  }

  /** string_to_integer: the number, clamped to -minneg and maxpos, whatever its
      length; the loop wraps around but the result never shows it. */
  method StringToInteger(value: seq<byte>, size: nat, minneg: int, maxpos: int) returns (r: nat)
    requires IsSize(size) && 0 <= minneg < Range(size) && 0 <= maxpos < Range(size)
    ensures r == Represent(size, Clamp(Number(value), -minneg, maxpos))
  {
    var s, negative, hex := ReadPrefix(value);
    var result, overflow := ReadMagnitude(value, s, hex, size);
    if negative {
      r := if overflow || result > minneg then Negate(size, minneg) else Negate(size, result);
    } else {
      r := if overflow || result > maxpos then maxpos else result;
    }
  }

  // ---------------------------------------------------------------------
  // integer_to_string

  function Decimal(n: nat): (t: seq<byte>)
    ensures |t| >= 1
  {
    (if n < 10 then [] else Decimal(n / 10)) + [ZERO + n % 10]
  }

  function Text(x: int): (t: seq<byte>) {
    if x < 0 then [MINUS] + Decimal(-x) else Decimal(x)
  }

  // The value of the type that value represents, given its sign.
  function Meaning(size: nat, value: nat, negative: bool): int
    requires IsSize(size) && value < Range(size)
  {
    var rest: int := if negative then Negate(size, value) else value;
    if negative then -rest else rest
  }

  // The loop: digits from the end of the buffer backwards.
  method WriteDigits(buf: array<byte>, begin: nat, end: nat, number: nat) returns (result: nat)
    requires begin + |Decimal(number)| < end <= buf.Length
    modifies buf
    ensures begin < result <= end && buf[result..end] == Decimal(number)
    ensures buf[..result] == old(buf[..result]) && buf[end..] == old(buf[end..])
  {
    result := end;
    var rest := number;
    var more := true;
    while more
      invariant begin < result <= end && Decimal(number) == (if more then Decimal(rest) else []) + buf[result..end]
      invariant more ==> begin + |Decimal(rest)| < result
      invariant buf[..result] == old(buf[..result]) && buf[end..] == old(buf[end..])
      decreases more, rest
    {
      result := result - 1;
      ghost var tail := buf[result + 1..end];
      buf[result] := ZERO + rest % 10;
      assert buf[result..end] == [ZERO + rest % 10] + tail;
      more := rest / 10 != 0;
      OneDigit(rest, tail, more);
      rest := rest / 10;
    }
  }

  lemma OneDigit(rest: nat, tail: seq<byte>, more: bool)
    requires more == (rest / 10 != 0)
    ensures Decimal(rest) + tail == (if more then Decimal(rest / 10) else []) + ([ZERO + rest % 10] + tail)
  {
    var before := if more then Decimal(rest / 10) else [];
    assert Decimal(rest) == before + [ZERO + rest % 10];
    assert before + [ZERO + rest % 10] + tail == before + ([ZERO + rest % 10] + tail);
  }

  lemma TextOfMeaning(size: nat, value: nat, negative: bool)
    requires IsSize(size) && value < Range(size)
    ensures var digits := Decimal(if negative then Negate(size, value) else value);
            && (!negative ==> Text(Meaning(size, value, negative)) == digits)
            && (negative && value != 0 ==> Text(Meaning(size, value, negative)) == [MINUS] + digits)
            && (negative && value == 0 ==> digits == [ZERO])
  {
  }

  /** integer_to_string: the digits and a '-' in front of them; the text starts
      behind the '-' for numbers that have none. */
  method IntegerToString(buf: array<byte>, begin: nat, end: nat, size: nat, value: nat, negative: bool) returns (r: nat)
    requires IsSize(size) && value < Range(size)
    requires begin + |Decimal(if negative then Negate(size, value) else value)| < end <= buf.Length
    modifies buf
    ensures begin <= r <= end
    ensures if negative && value == 0 then buf[r..end] == [MINUS, ZERO] else buf[r..end] == Text(Meaning(size, value, negative))
    ensures buf[..begin] == old(buf[..begin]) && buf[end..] == old(buf[end..])
  {
    ghost var o := buf[..];
    TextOfMeaning(size, value, negative);
    var rest := if negative then Negate(size, value) else value;
    var result := WriteDigits(buf, begin, end, rest);
    ghost var digits := buf[result..end];
    assert buf[..begin] == buf[..result][..begin] == o[..begin];
    result := result - 1;
    buf[result] := MINUS;
    assert buf[result + 1..end] == digits && buf[result..end] == [MINUS] + digits;
    r := if negative then result else result + 1;
  }

  // ---------------------------------------------------------------------
  // There and back.

  lemma {:induction false} DecimalDigits(n: nat)
    ensures forall k :: 0 <= k < |Decimal(n)| ==> 48 <= Decimal(n)[k] <= 57
    ensures |Decimal(n)| > 1 ==> Decimal(n)[0] != ZERO
    decreases n
  {
    if 10 <= n {
      DecimalDigits(n / 10);
      FirstOfDecimal(n / 10);
    }
  }

  lemma {:induction false} FirstOfDecimal(n: nat)
    requires 0 < n
    ensures Decimal(n)[0] != ZERO
    decreases n
  {
    if 10 <= n { FirstOfDecimal(n / 10); }
  }

  // The digits of n, found from position i of a text.
  lemma {:induction false} DecimalValue(b: seq<byte>, i: nat, n: nat)
    requires Lit(b, i, Decimal(n))
    ensures AllDigits(b, i, i + |Decimal(n)|, false) && Digits(b, i, i + |Decimal(n)|, false) == n
    decreases n
  {
    DecimalDigits(n);
    var d := Decimal(n);
    LitAt(b, i, d, |d| - 1);
    forall k | i <= k < i + |d| ensures IsDigit(b[k], false) { LitAt(b, i, d, k - i); }
    if 10 <= n {
      LitSplit(b, i, Decimal(n / 10), [ZERO + n % 10]);
      DecimalValue(b, i, n / 10);
    } else {
      assert Digits(b, i, i, false) == 0;
    }
  }

  lemma {:induction false} EndOfDigits(b: seq<byte>, i: nat, e: nat, hex: bool)
    requires i <= e && AllDigits(b, i, e, hex) && !IsDigit(ByteAt(b, e), hex)
    ensures DigitsEnd(b, i, hex) == e
    decreases e - i
  {
    if i < e { EndOfDigits(b, i + 1, e, hex); }
  }

  /** What integer_to_string writes, string_to_integer reads back: for every
      number, so in particular for the least one of each signed type. */
  lemma {:induction false} IntegerRoundTrip(x: int)
    ensures Number(Text(x)) == x
  {
    var n := if x < 0 then -x else x;
    var i := if x < 0 then 1 else 0;
    var b := Text(x);
    DecimalDigits(n);
    assert Lit(b, i, Decimal(n));
    LitAt(b, i, Decimal(n), 0);
    assert SpaceRun(b, 0) == 0;
    assert AfterSign(b) == i;
    if 1 < |Decimal(n)| { LitAt(b, i, Decimal(n), 1); }
    assert !IsHex(b);
    DecimalValue(b, i, n);
    EndOfDigits(b, i, i + |Decimal(n)|, false);
  }

  // The same for the values of a type: nothing is clamped on the way back.
  lemma {:induction false} SignedRoundTrip(size: nat, x: int)
    requires IsSize(size) && -(Range(size) / 2) <= x < Range(size) / 2
    ensures Clamp(Number(Text(x)), -(Range(size) / 2), Range(size) / 2 - 1) == x
    ensures Meaning(size, Represent(size, x), x < 0) == x
  {
    IntegerRoundTrip(x);
  }

  lemma {:induction false} UnsignedRoundTrip(size: nat, x: nat)
    requires IsSize(size) && x < Range(size)
    ensures Clamp(Number(Text(x)), 0, Range(size) - 1) == x && Meaning(size, Represent(size, x), false) == x
  {
    IntegerRoundTrip(x);
  }
}
