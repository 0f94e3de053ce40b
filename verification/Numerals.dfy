/** What digits are worth, place by place, in decimal and hexadecimal: for character
    references (XML 1.0 section 4.1) and for string_to_integer. */
module Numerals {
  import opened Bytes
  import opened Options
  import opened Unescape
  import Integers

  const LOWER := "0123456789abcdef"
  const UPPER := "0123456789ABCDEF"

  function Base(hex: bool): nat {
    if hex then 16 else 10
  }

  // The character for a digit; above nine in either case.
  predicate Stands(c: byte, d: nat, hex: bool) {
    d < Base(hex) && (c == LOWER[d] as int || c == UPPER[d] as int)
  }

  ghost predicate Spell(cs: seq<byte>, ds: seq<nat>, hex: bool) {
    |cs| == |ds| && forall k :: 0 <= k < |cs| ==> Stands(cs[k], ds[k], hex)
  }

  function Pow(base: nat, n: nat): nat {
    if n == 0 then 1 else base * Pow(base, n - 1)
  }

  // The first digit is worth most.
  function Worth(ds: seq<nat>, base: nat): nat {
    if ds == [] then 0 else ds[0] * Pow(base, |ds| - 1) + Worth(ds[1..], base)
  }

  lemma {:induction false} WorthMore(ds: seq<nat>, d: nat, base: nat)
    ensures Worth(ds + [d], base) == base * Worth(ds, base) + d
    decreases |ds|
  {
    var all := ds + [d];
    if ds == [] {
      assert all == [d] && all[1..] == [] && Pow(base, 0) == 1 && Worth([], base) == 0;
    } else {
      assert all[1..] == ds[1..] + [d];
      WorthMore(ds[1..], d, base);
      Distribute(base, ds[0], Pow(base, |ds| - 1), Worth(ds[1..], base));
    }
  }

  lemma Distribute(base: nat, x: nat, p: nat, y: nat)
    ensures base * (x * p + y) == x * (base * p) + base * y
  {
  }

  lemma DigitStands(c: byte, d: nat, hex: bool)
    requires Stands(c, d, hex)
    ensures DigitValue(c, hex) == d
  {
  }

  // ---------------------------------------------------------------------
  // string_to_integer.

  lemma {:induction false} DigitsAreWorth(b: seq<byte>, i: nat, cs: seq<byte>, ds: seq<nat>, hex: bool)
    requires Lit(b, i, cs) && Spell(cs, ds, hex)
    ensures Integers.AllDigits(b, i, i + |cs|, hex) && Integers.Digits(b, i, i + |cs|, hex) == Worth(ds, Base(hex))
    decreases |cs|
  {
    if cs != [] {
      var n := |cs| - 1;
      LitAt(b, i, cs, n);
      DigitStands(cs[n], ds[n], hex);
      forall j | 0 <= j < n ensures b[i + j] == cs[..n][j] { LitAt(b, i, cs, j); }
      DigitsAreWorth(b, i, cs[..n], ds[..n], hex);
      WorthMore(ds[..n], ds[n], Base(hex));
      assert ds[..n] + [ds[n]] == ds;
    }
  }

  lemma {:induction false} DigitsEndAt(b: seq<byte>, i: nat, e: nat, hex: bool)
    requires i <= e <= |b| && Integers.AllDigits(b, i, e, hex) && !Integers.IsDigit(ByteAt(b, e), hex)
    ensures Integers.DigitsEnd(b, i, hex) == e
    decreases e - i
  {
    if i < e { DigitsEndAt(b, i + 1, e, hex); }
  }

  lemma {:induction false} SpaceEndsAt(b: seq<byte>, i: nat, n: nat)
    requires i + n <= |b| && (forall k :: i <= k < i + n ==> IsSpace(b[k])) && !IsSpace(ByteAt(b, i + n))
    ensures SpaceRun(b, i) == n
    decreases n
  {
    if n != 0 { SpaceEndsAt(b, i + 1, n - 1); }
  }

  datatype Sign = NoSign | Plus | Minus

  function SignBytes(g: Sign): seq<byte> {
    match g
    case NoSign => []
    case Plus => [43]
    case Minus => [45]
  }

  // 0x or 0X.
  predicate PrefixOf(x: seq<byte>, hex: bool) {
    if hex then |x| == 2 && x[0] == 48 && x[1] in {120, 88} else x == []
  }

  // Where the parts are: white space, sign, prefix, digits.
  ghost predicate PartsAt(b: seq<byte>, sp: seq<byte>, g: Sign, x: seq<byte>, hex: bool, cs: seq<byte>, i: nat, f: nat) {
    && i == |sp| + |SignBytes(g)| && f == i + |x| && |b| == f + |cs|
    && Lit(b, 0, sp) && Lit(b, |sp|, SignBytes(g)) && Lit(b, i, x) && Lit(b, f, cs)
  }

  lemma PartsOf(sp: seq<byte>, g: Sign, x: seq<byte>, hex: bool, cs: seq<byte>, s: seq<byte>, b: seq<byte>)
    requires s == SignBytes(g) && b == sp + s + x + cs
    ensures PartsAt(b, sp, g, x, hex, cs, |sp| + |s|, |sp| + |s| + |x|)
  {
    FourParts(sp, s, x, cs);
    Nested(b, sp, s, x, cs, s + (x + cs), x + cs);
  }

  lemma Nested(b: seq<byte>, sp: seq<byte>, s: seq<byte>, x: seq<byte>, cs: seq<byte>, z: seq<byte>, y: seq<byte>)
    requires b == sp + z && z == s + y && y == x + cs
    ensures Lit(b, 0, sp) && Lit(b, |sp|, s) && Lit(b, |sp| + |s|, x) && Lit(b, |sp| + |s| + |x|, cs)
  {
    Whole(b);
    LitSplit(b, 0, sp, z);
    LitSplit(b, |sp|, s, y);
    LitSplit(b, |sp| + |s|, x, cs);
  }

  lemma Whole(b: seq<byte>)
    ensures Lit(b, 0, b)
  {
  }

  lemma FourParts(a: seq<byte>, b: seq<byte>, c: seq<byte>, d: seq<byte>)
    ensures a + b + c + d == a + (b + (c + d))
  {
    assert a + b + c + d == (a + b) + (c + d);
  }

  lemma DigitsOnly(cs: seq<byte>, ds: seq<nat>, hex: bool)
    requires Spell(cs, ds, hex)
    ensures forall k :: 0 <= k < |cs| ==> DigitValue(cs[k], hex) >= 0
  {
    forall k | 0 <= k < |cs| ensures DigitValue(cs[k], hex) >= 0 { DigitStands(cs[k], ds[k], hex); }
  }

  lemma PrefixSeen(b: seq<byte>, sp: seq<byte>, g: Sign, x: seq<byte>, hex: bool, cs: seq<byte>, ds: seq<nat>, i: nat, f: nat)
    requires PrefixOf(x, hex) && Spell(cs, ds, hex) && PartsAt(b, sp, g, x, hex, cs, i, f)
    ensures ByteAt(b, i) == 48 && ByteAt(b, i + 1) in {120, 88} <==> hex
    ensures !IsSpace(ByteAt(b, i)) && ByteAt(b, i) != 43 && ByteAt(b, i) != 45
  {
    DigitsOnly(cs, ds, hex);
    if hex {
      LitAt(b, i, x, 0);
      LitAt(b, i, x, 1);
    } else {
      if cs != [] { LitAt(b, f, cs, 0); }
      if 1 < |cs| { LitAt(b, f, cs, 1); }
    }
  }

  lemma SignSeen(b: seq<byte>, sp: seq<byte>, g: Sign, x: seq<byte>, hex: bool, cs: seq<byte>, ds: seq<nat>, i: nat, f: nat)
    requires (forall k :: 0 <= k < |sp| ==> IsSpace(sp[k])) && PrefixOf(x, hex) && Spell(cs, ds, hex) && PartsAt(b, sp, g, x, hex, cs, i, f)
    ensures Integers.SignAt(b) == |sp| && Integers.AfterSign(b) == i && (ByteAt(b, |sp|) == Integers.MINUS <==> g.Minus?)
    ensures Integers.IsHex(b) == hex && Integers.FirstDigit(b) == f
  {
    PrefixSeen(b, sp, g, x, hex, cs, ds, i, f);
    if !g.NoSign? { LitAt(b, |sp|, SignBytes(g), 0); }
    forall k | 0 <= k < |sp| ensures IsSpace(b[k]) { LitAt(b, 0, sp, k); }
    SpaceEndsAt(b, 0, |sp|);
  }

  lemma {:induction false} PartsAreWorth(b: seq<byte>, sp: seq<byte>, g: Sign, x: seq<byte>, hex: bool, cs: seq<byte>, ds: seq<nat>, i: nat, f: nat)
    requires (forall k :: 0 <= k < |sp| ==> IsSpace(sp[k])) && PrefixOf(x, hex) && Spell(cs, ds, hex) && PartsAt(b, sp, g, x, hex, cs, i, f)
    ensures Integers.Magnitude(b) == Worth(ds, Base(hex)) && (ByteAt(b, Integers.SignAt(b)) == Integers.MINUS <==> g.Minus?)
  {
    SignSeen(b, sp, g, x, hex, cs, ds, i, f);
    DigitsAreWorth(b, f, cs, ds, hex);
    DigitsEndAt(b, f, |b|, hex);
  }

  /** White space, a sign, a prefix and digits denote what the digits are worth. */
  lemma {:induction false} NumberIsWorth(sp: seq<byte>, g: Sign, x: seq<byte>, hex: bool, cs: seq<byte>, ds: seq<nat>, b: seq<byte>)
    requires (forall k :: 0 <= k < |sp| ==> IsSpace(sp[k])) && PrefixOf(x, hex) && Spell(cs, ds, hex) && b == sp + SignBytes(g) + x + cs
    ensures Integers.Number(b) == if g.Minus? then -(Worth(ds, Base(hex)) as int) else Worth(ds, Base(hex))
  {
    var s := SignBytes(g);
    PartsOf(sp, g, x, hex, cs, s, b);
    PartsAreWorth(b, sp, g, x, hex, cs, ds, |sp| + |s|, |sp| + |s| + |x|);
  }

  // ---------------------------------------------------------------------
  // Character references.

  lemma {:induction false} ScanIsWorth(b: seq<byte>, i: nat, cs: seq<byte>, ds: seq<nat>, n: nat, hex: bool)
    requires Lit(b, i, cs) && Spell(cs, ds, hex) && n <= |cs| && DigitValue(ByteAt(b, i + |cs|), hex) < 0
    ensures ScanNumber(b, i + n, hex, Worth(ds[..n], Base(hex)) % WORD) == (i + |cs|, Worth(ds, Base(hex)) % WORD)
    decreases |cs| - n
  {
    if n == |cs| {
      assert ds[..n] == ds;
    } else {
      var w := Worth(ds[..n], Base(hex));
      LitAt(b, i, cs, n);
      DigitStands(cs[n], ds[n], hex);
      assert ds[..n] + [ds[n]] == ds[..n + 1];
      WorthMore(ds[..n], ds[n], Base(hex));
      Reduced(Base(hex), w, ds[n]);
      ScanIsWorth(b, i, cs, ds, n + 1, hex);
    }
  }

  lemma Reduced(base: nat, w: nat, d: nat)
    requires base == 10 || base == 16
    ensures (base * (w % WORD) + d) % WORD == (base * w + d) % WORD
  {
    var q := w / WORD;
    assert w == w % WORD + WORD * q;
    if base == 10 {
      assert 10 * w + d == (10 * (w % WORD) + d) + WORD * (10 * q);
    } else {
      assert 16 * w + d == (16 * (w % WORD) + d) + WORD * (16 * q);
    }
  }

  function RefStart(hex: bool): seq<byte> {
    if hex then [AMP, HASH, 120] else [AMP, HASH]
  }

  /** A character reference stands for what its digits are worth, in 32 bits, wherever it is
      in the text. */
  lemma {:induction false} ReferenceIsWorth(x: seq<byte>, hex: bool, cs: seq<byte>, ds: seq<nat>, y: seq<byte>)
    requires cs != [] && Spell(cs, ds, hex)
    ensures var r := RefStart(hex) + cs + [SEMI];
            Reference(x + r + y, |x|) == Some((|r|, Utf8(Worth(ds, Base(hex)) % WORD)))
  {
    var r := RefStart(hex) + cs + [SEMI];
    var b, i := x + r + y, |x|;
    ReferenceParts(x, hex, cs, ds, y, b);
    var j := i + |RefStart(hex)|;
    assert ds[..0] == [] && Worth([], Base(hex)) % WORD == 0;
    ScanIsWorth(b, j, cs, ds, 0, hex);
    assert DigitsAt(b, i) == j;
  }

  lemma ReferenceParts(x: seq<byte>, hex: bool, cs: seq<byte>, ds: seq<nat>, y: seq<byte>, b: seq<byte>)
    requires cs != [] && Spell(cs, ds, hex) && b == x + (RefStart(hex) + cs + [SEMI]) + y
    ensures var i, j := |x|, |x| + |RefStart(hex)|;
      && j + |cs| < |b| && ByteAt(b, i + 1) == HASH && (ByteAt(b, i + 2) == 120 <==> hex) && Lit(b, j, cs) && b[j + |cs|] == SEMI
  {
    var i, j := |x|, |x| + |RefStart(hex)|;
    assert b[i + 1] == RefStart(hex)[1];
    forall k | 0 <= k < |cs| ensures b[j + k] == cs[k] { }
    DigitStands(cs[0], ds[0], hex);
    if hex { assert b[i + 2] == RefStart(hex)[2]; } else { assert b[i + 2] == cs[0]; }
  }
}
