/** What decoding does to white space (XML 1.0 sections 2.11 and 3.3.3), as a rewriting of
    the text before it is decoded: line ends become line feeds, white space becomes
    spaces, runs of it one space. */
module LineEnds {
  import opened Bytes
  import opened Options
  import opened Unescape

  /** CR LF and every other CR become one LF. */
  function Normalised(s: seq<byte>): (t: seq<byte>)
    ensures |t| <= |s|
  {
    if s == [] then []
    else if s[0] == CR then [LF] + Normalised(if |s| > 1 && s[1] == LF then s[2..] else s[1..])
    else [s[0]] + Normalised(s[1..])
  }

  /** Every white space character becomes a space. */
  function Spaced(s: seq<byte>): (t: seq<byte>)
    ensures |t| == |s|
  {
    if s == [] then [] else [if IsSpace(s[0]) then SPACE else s[0]] + Spaced(s[1..])
  }

  function WithoutSpace(s: seq<byte>): (t: seq<byte>)
    ensures |t| <= |s| && (t != [] ==> !IsSpace(t[0]))
  {
    if s != [] && IsSpace(s[0]) then WithoutSpace(s[1..]) else s
  }

  /** Every run of white space becomes one space. */
  function Collapsed(s: seq<byte>): (t: seq<byte>)
    ensures |t| <= |s|
    decreases |s|
  {
    if s == [] then []
    else if IsSpace(s[0]) then [SPACE] + Collapsed(WithoutSpace(s[1..]))
    else [s[0]] + Collapsed(s[1..])
  }

  // ---------------------------------------------------------------------
  // References depend only on the characters up to the next that cannot be in one.

  // White space, '<' and quotes are in no reference.
  predicate Ends(c: byte) {
    IsSpace(c) || c == LT || c == QUOT || c == APOS
  }

  // The bytes from i on before the next of those.
  function Solid(b: seq<byte>, i: nat): (k: nat)
    ensures i <= |b| ==> i + k <= |b|
    ensures forall l :: i <= l < i + k ==> l < |b| && !Ends(b[l])
    ensures i + k < |b| ==> Ends(b[i + k])
    decreases |b| - i
  {
    if i < |b| && !Ends(b[i]) then 1 + Solid(b, i + 1) else 0
  }

  // The same from i in b as from j in d, up to one of those.
  ghost predicate Alike(b: seq<byte>, i: nat, d: seq<byte>, j: nat) {
    && i <= |b| && j <= |d|
    && var k := Solid(b, i);
       Solid(d, j) == k && b[i..i + k] == d[j..j + k]
  }

  lemma {:induction false} LitAlike(b: seq<byte>, i: nat, d: seq<byte>, j: nat, name: seq<byte>)
    requires Alike(b, i, d, j) && Lit(b, i, name) && forall l :: 0 <= l < |name| ==> !Ends(name[l])
    ensures |name| <= Solid(b, i) && Lit(d, j, name)
  {
    var k := Solid(b, i);
    if k < |name| { LitAt(b, i, name, k); }
    forall l | 0 <= l < |name| ensures d[j + l] == name[l] {
      LitAt(b, i, name, l);
      SameByte(b, i, d, j, l);
    }
  }

  lemma {:induction false} AlikeBack(b: seq<byte>, i: nat, d: seq<byte>, j: nat)
    requires Alike(b, i, d, j)
    ensures Alike(d, j, b, i)
  {
  }

  lemma {:induction false} SameLit(b: seq<byte>, i: nat, d: seq<byte>, j: nat, name: seq<byte>)
    requires Alike(b, i, d, j) && forall l :: 0 <= l < |name| ==> !Ends(name[l])
    ensures Lit(b, i, name) <==> Lit(d, j, name)
  {
    AlikeBack(b, i, d, j);
    if Lit(b, i, name) { LitAlike(b, i, d, j, name); }
    if Lit(d, j, name) { LitAlike(d, j, b, i, name); }
  }

  // The byte l further on.
  lemma {:induction false} SameByte(b: seq<byte>, i: nat, d: seq<byte>, j: nat, l: nat)
    requires Alike(b, i, d, j) && l <= Solid(b, i)
    ensures l < Solid(b, i) ==> i + l < |b| && j + l < |d| && ByteAt(b, i + l) == ByteAt(d, j + l)
    ensures l == Solid(b, i) ==> Blank(ByteAt(b, i + l)) && Blank(ByteAt(d, j + l))
  {
    var k := Solid(b, i);
    if l < k { assert b[i..i + k][l] == d[j..j + k][l]; }
  }

  predicate Blank(c: byte) {
    c == NUL || Ends(c)
  }

  lemma {:induction false} SameScan(b: seq<byte>, i: nat, d: seq<byte>, j: nat, l: nat, hex: bool, acc: nat)
    requires Alike(b, i, d, j) && l <= Solid(b, i)
    ensures var r, q := ScanNumber(b, i + l, hex, acc), ScanNumber(d, j + l, hex, acc);
            r.1 == q.1 && r.0 - i == q.0 - j && l <= r.0 - i <= Solid(b, i)
    decreases Solid(b, i) - l
  {
    SameByte(b, i, d, j, l);
    if l < Solid(b, i) && DigitValue(b[i + l], hex) >= 0 {
      SameScan(b, i, d, j, l + 1, hex, ((if hex then 16 else 10) * acc + DigitValue(b[i + l], hex)) % WORD);
    }
  }

  lemma {:induction false} SameNumeric(b: seq<byte>, i: nat, d: seq<byte>, j: nat)
    requires Alike(b, i, d, j) && i < |b| && j < |d| && 2 <= Solid(b, i)
    ensures Numeric(b, i) == Numeric(d, j) && (Numeric(b, i).Some? ==> Numeric(b, i).value.0 <= Solid(b, i))
  {
    SameByte(b, i, d, j, 2);
    var l, hex := DigitsAt(b, i) - i, ByteAt(b, i + 2) == 120;
    assert ByteAt(d, j + 2) == 120 <==> hex;
    SameDigits(b, i, d, j, l, hex);
    NumericIs(b, i, l, hex);
    NumericIs(d, j, l, hex);
  }

  lemma {:induction false} NumericIs(b: seq<byte>, i: nat, l: nat, hex: bool)
    requires i < |b| && l == DigitsAt(b, i) - i && hex == (ByteAt(b, i + 2) == 120)
    ensures var r := ScanNumber(b, i + l, hex, 0);
            if l < r.0 - i && ByteAt(b, r.0) == SEMI then Numeric(b, i) == Some((r.0 + 1 - i, Utf8(r.1))) else Numeric(b, i).None?
  {
  }

  lemma {:induction false} SameDigits(b: seq<byte>, i: nat, d: seq<byte>, j: nat, l: nat, hex: bool)
    requires Alike(b, i, d, j) && i < |b| && j < |d| && l <= Solid(b, i)
    ensures var r, q := ScanNumber(b, i + l, hex, 0), ScanNumber(d, j + l, hex, 0);
            && r.1 == q.1 && r.0 - i == q.0 - j && (ByteAt(b, r.0) == SEMI <==> ByteAt(d, q.0) == SEMI)
            && (ByteAt(b, r.0) == SEMI ==> r.0 + 1 - i <= Solid(b, i))
  {
    SameScan(b, i, d, j, l, hex, 0);
    SameByte(b, i, d, j, ScanNumber(b, i + l, hex, 0).0 - i);
  }

  /** A reference is one whatever follows behind the next white space, '<' or quote. */
  lemma {:induction false} SameReference(b: seq<byte>, i: nat, d: seq<byte>, j: nat)
    requires Alike(b, i, d, j) && i < |b| && b[i] == AMP
    ensures j < |d| && d[j] == AMP && Reference(b, i) == Reference(d, j)
    ensures Reference(b, i).Some? ==> Reference(b, i).value.0 <= Solid(b, i)
  {
    SameByte(b, i, d, j, 0);
    SameByte(b, i, d, j, 1);
    if ByteAt(b, i + 1) == HASH {
      SameNumeric(b, i, d, j);
    } else {
      SameNamed(b, i, d, j);
    }
  }

  lemma {:induction false} SameNamed(b: seq<byte>, i: nat, d: seq<byte>, j: nat)
    requires Alike(b, i, d, j) && i < |b| && j < |d|
    ensures Named(b, i) == Named(d, j) && (Named(b, i).Some? ==> Named(b, i).value.0 <= Solid(b, i))
  {
    SameLit(b, i, d, j, AMP_NAME);
    SameLit(b, i, d, j, APOS_NAME);
    SameLit(b, i, d, j, GT_NAME);
    SameLit(b, i, d, j, LT_NAME);
    SameLit(b, i, d, j, QUOT_NAME);
    if Lit(b, i, AMP_NAME) { LitAlike(b, i, d, j, AMP_NAME); }
    if Lit(b, i, APOS_NAME) { LitAlike(b, i, d, j, APOS_NAME); }
    if Lit(b, i, GT_NAME) { LitAlike(b, i, d, j, GT_NAME); }
    if Lit(b, i, LT_NAME) { LitAlike(b, i, d, j, LT_NAME); }
    if Lit(b, i, QUOT_NAME) { LitAlike(b, i, d, j, QUOT_NAME); }
  }

  // ---------------------------------------------------------------------
  // The three rewritings leave everything but white space where it is.

  datatype Rewriting = ToLineFeeds | ToSpaces | ToOneSpace

  function Rewrite(r: Rewriting, s: seq<byte>): (t: seq<byte>)
    ensures |t| <= |s|
  {
    match r
    case ToLineFeeds => Normalised(s)
    case ToSpaces => Spaced(Normalised(s))
    case ToOneSpace => Collapsed(s)
  }

  // The first character: itself, or what white space becomes.
  lemma {:induction false} RewriteFirst(r: Rewriting, s: seq<byte>)
    requires s != []
    ensures Rewrite(r, s) != []
    ensures !IsSpace(s[0]) ==> Rewrite(r, s) == [s[0]] + Rewrite(r, s[1..])
    ensures IsSpace(s[0]) ==> IsSpace(Rewrite(r, s)[0])
  {
    if r.ToSpaces? {
      var n := Normalised(s);
      assert n != [] && Spaced(n)[0] == if IsSpace(n[0]) then SPACE else n[0];
      if !IsSpace(s[0]) { assert n[1..] == Normalised(s[1..]); }
    }
  }

  lemma {:induction false} RewriteKeeps(r: Rewriting, s: seq<byte>, n: nat)
    requires n <= |s| && forall l :: 0 <= l < n ==> !IsSpace(s[l])
    ensures Rewrite(r, s) == s[..n] + Rewrite(r, s[n..])
    decreases n
  {
    if n == 0 {
      assert s[..0] == [] && s[0..] == s;
    } else {
      var rest := s[1..];
      RewriteFirst(r, s);
      RewriteKeeps(r, rest, n - 1);
      assert rest[n - 1..] == s[n..];
      FrontJoin(s, rest, n, Rewrite(r, s[n..]));
    }
  }

  lemma FrontJoin(s: seq<byte>, rest: seq<byte>, n: nat, t: seq<byte>)
    requires 0 < n <= |s| && rest == s[1..]
    ensures [s[0]] + (rest[..n - 1] + t) == s[..n] + t
  {
    assert [s[0]] + rest[..n - 1] == s[..n];
  }

  lemma {:induction false} RewriteAlike(r: Rewriting, b: seq<byte>, i: nat, d: seq<byte>, j: nat)
    requires i <= |b| && j <= |d| && d[j..] == Rewrite(r, b[i..])
    ensures Alike(b, i, d, j)
  {
    var k := Solid(b, i);
    RewriteKeeps(r, b[i..], k);
    FrontAlike(b, i, d, j, k, Rewrite(r, b[i..][k..]));
    if i + k < |b| {
      assert b[i..][k..][0] == b[i + k];
      RewriteFirst(r, b[i..][k..]);
    } else {
      assert b[i..][k..] == [];
    }
    SolidIs(d, j, k);
  }

  lemma FrontAlike(b: seq<byte>, i: nat, d: seq<byte>, j: nat, k: nat, t: seq<byte>)
    requires i + k <= |b| && j <= |d| && d[j..] == b[i..][..k] + t && forall l :: i <= l < i + k ==> !Ends(b[l])
    ensures j + k <= |d| && d[j..j + k] == b[i..i + k] && |d| - j - k == |t| && (t != [] ==> d[j + k] == t[0])
    ensures forall l :: j <= l < j + k ==> !Ends(d[l])
  {
    var s := d[j..];
    assert b[i..][..k] == b[i..i + k] && s[..k] == b[i..i + k] && d[j..j + k] == s[..k];
    forall l | j <= l < j + k ensures !Ends(d[l]) { assert d[l] == d[j..j + k][l - j] == b[i + (l - j)]; }
    if t != [] { assert d[j + k] == s[k]; }
  }

  lemma {:induction false} SolidIs(d: seq<byte>, j: nat, k: nat)
    requires j + k <= |d| && (forall l :: j <= l < j + k ==> !Ends(d[l])) && (j + k < |d| ==> Ends(d[j + k]))
    ensures Solid(d, j) == k
    decreases k
  {
    if k != 0 { SolidIs(d, j + 1, k - 1); }
  }

  // ---------------------------------------------------------------------
  // Decoding rewritten text.

  // Which rewriting does the work of the white space options, and what is left to do.
  predicate Does(r: Rewriting, m: Mode) {
    match r
    case ToLineFeeds => m.eol && !m.wconv && !m.wnorm
    case ToSpaces => m.wconv && !m.wnorm
    case ToOneSpace => m.wnorm
  }

  function Plain(m: Mode): Mode {
    m.(eol := false, wconv := false, wnorm := false)
  }

  // How much a rewriting takes at the beginning of white space, and what it makes of it.
  lemma {:induction false} SpaceRewritten(r: Rewriting, b: seq<byte>, i: nat, m: Mode, s: seq<byte>)
    requires Does(r, m) && i < |b| && IsSpace(b[i]) && s == b[i..]
    ensures var t := Token(m, b, i);
            && |t.1| == 1 && IsSpace(t.1[0]) && Rewrite(r, s) == t.1 + Rewrite(r, b[i + t.0..])
  {
    match r
    case ToLineFeeds => LineFeedTaken(b, i, s);
    case ToSpaces =>
      LineFeedTaken(b, i, s);
      assert Normalised(s)[1..] == Normalised(b[i + Token(m, b, i).0..]);
    case ToOneSpace => RunTaken(b, i, s);
  }

  lemma LineFeedTaken(b: seq<byte>, i: nat, s: seq<byte>)
    requires i < |b| && IsSpace(b[i]) && s == b[i..]
    ensures var n := if b[i] == CR && ByteAt(b, i + 1) == LF then 2 else 1;
            i + n <= |b| && Normalised(s) == [if b[i] == CR then LF else b[i]] + Normalised(b[i + n..])
  {
    if |s| > 1 {
      assert s[1] == b[i + 1];
      assert s[2..] == b[i + 2..];
    }
    assert s[1..] == b[i + 1..];
  }

  lemma {:induction false} RunTaken(b: seq<byte>, i: nat, s: seq<byte>)
    requires i < |b| && IsSpace(b[i]) && s == b[i..]
    ensures i + SpaceRun(b, i) <= |b| && Collapsed(s) == [SPACE] + Collapsed(b[i + SpaceRun(b, i)..])
  {
    assert s[1..] == b[i + 1..];
    RunWithout(b, i + 1);
  }

  lemma {:induction false} RunWithout(b: seq<byte>, i: nat)
    requires i <= |b|
    ensures WithoutSpace(b[i..]) == b[i + SpaceRun(b, i)..]
    decreases |b| - i
  {
    if i < |b| && IsSpace(b[i]) {
      assert b[i..][1..] == b[i + 1..];
      RunWithout(b, i + 1);
    }
  }

  // Other characters and references stay.
  lemma {:induction false} SolidRewritten(r: Rewriting, b: seq<byte>, i: nat, m: Mode, d: seq<byte>, j: nat, n: nat)
    requires Does(r, m) && i < |b| && !IsSpace(b[i]) && j <= |d| && d[j..] == Rewrite(r, b[i..]) && n == Token(m, b, i).0
    ensures j < |d| && d[j] == b[i] && Token(Plain(m), d, j) == Token(m, b, i)
    ensures j + n <= |d| && d[j + n..] == Rewrite(r, b[i + n..])
  {
    SolidTokens(r, b, i, m, d, j);
    FrontKept(r, b, i, d, j, n);
  }

  lemma {:induction false} SolidTokens(r: Rewriting, b: seq<byte>, i: nat, m: Mode, d: seq<byte>, j: nat)
    requires i < |b| && !IsSpace(b[i]) && j <= |d| && d[j..] == Rewrite(r, b[i..])
    ensures j < |d| && d[j] == b[i] && Token(Plain(m), d, j) == Token(m, b, i)
    ensures forall l :: i <= l < i + Token(m, b, i).0 ==> l < |b| && !IsSpace(b[l])
  {
    RewriteAlike(r, b, i, d, j);
    FrontKept(r, b, i, d, j, 1);
    SolidToken(m, b, i, d, j);
  }

  lemma {:induction false} SolidToken(m: Mode, b: seq<byte>, i: nat, d: seq<byte>, j: nat)
    requires Alike(b, i, d, j) && i < |b| && j < |d| && d[j] == b[i] && !IsSpace(b[i])
    ensures Token(Plain(m), d, j) == Token(m, b, i)
    ensures forall l :: i <= l < i + Token(m, b, i).0 ==> l < |b| && !IsSpace(b[l])
  {
    if b[i] == AMP { SameReference(b, i, d, j); }
  }

  lemma {:induction false} FrontKept(r: Rewriting, b: seq<byte>, i: nat, d: seq<byte>, j: nat, n: nat)
    requires 0 < n && i + n <= |b| && j <= |d| && d[j..] == Rewrite(r, b[i..]) && forall l :: i <= l < i + n ==> !IsSpace(b[l])
    ensures j < |d| && d[j] == b[i] && j + n <= |d| && d[j + n..] == Rewrite(r, b[i + n..])
  {
    var s := b[i..];
    forall l | 0 <= l < n ensures !IsSpace(s[l]) { assert s[l] == b[i + l]; }
    RewriteKeeps(r, s, n);
    assert s[n..] == b[i + n..];
    DropFront(d, j, n, s[..n], Rewrite(r, s[n..]));
    assert d[j] == d[j..][0] == s[0];
  }

  lemma DropFront(d: seq<byte>, j: nat, n: nat, x: seq<byte>, y: seq<byte>)
    requires j <= |d| && d[j..] == x + y && |x| == n
    ensures j + n <= |d| && d[j + n..] == y
  {
    assert d[j + n..] == d[j..][n..];
  }

  // White space is a token of one character, itself or what it was rewritten to.
  lemma {:induction false} SpaceToken(m: Mode, d: seq<byte>, j: nat, x: seq<byte>, y: seq<byte>)
    requires j <= |d| && d[j..] == x + y && |x| == 1 && IsSpace(x[0]) && !IsSpace(m.stop)
    ensures !Stops(Plain(m), d, j) && Token(Plain(m), d, j) == (1, x) && d[j + 1..] == y
  {
    DropFront(d, j, 1, x, y);
    assert d[j] == d[j..][0] == x[0];
    assert [d[j]] == x;
  }

  ghost predicate Under(r: Rewriting, m: Mode, b: seq<byte>, i: nat, p: Mode, d: seq<byte>, j: nat) {
    Does(r, m) && !IsSpace(m.stop) && i <= |b| && j <= |d| && d[j..] == Rewrite(r, b[i..]) && p == Plain(m)
  }

  // One token of the text is one token of the rewritten text.
  ghost predicate Together(r: Rewriting, m: Mode, b: seq<byte>, i: nat, n: nat, p: Mode, d: seq<byte>, j: nat, k: nat, text: seq<byte>) {
    && !Stops(m, b, i) && Token(m, b, i) == (n, text) && !Stops(p, d, j) && Token(p, d, j) == (k, text)
    && 1 <= n && i + n <= |b| && j + k <= |d| && d[j + k..] == Rewrite(r, b[i + n..])
  }

  lemma {:induction false} SpaceTogether(r: Rewriting, m: Mode, b: seq<byte>, i: nat, p: Mode, d: seq<byte>, j: nat) returns (n: nat, text: seq<byte>)
    requires Does(r, m) && !IsSpace(m.stop) && i < |b| && j <= |d| && d[j..] == Rewrite(r, b[i..]) && IsSpace(b[i]) && p == Plain(m)
    ensures Together(r, m, b, i, n, p, d, j, 1, text)
  {
    n, text := Token(m, b, i).0, Token(m, b, i).1;
    SpaceRewritten(r, b, i, m, b[i..]);
    SpaceToken(m, d, j, text, Rewrite(r, b[i + n..]));
  }

  lemma {:induction false} SolidTogether(r: Rewriting, m: Mode, b: seq<byte>, i: nat, p: Mode, d: seq<byte>, j: nat) returns (n: nat, text: seq<byte>)
    requires Does(r, m) && i < |b| && j <= |d| && d[j..] == Rewrite(r, b[i..]) && !IsSpace(b[i]) && !Stops(m, b, i) && p == Plain(m)
    ensures Together(r, m, b, i, n, p, d, j, n, text)
  {
    n, text := Token(m, b, i).0, Token(m, b, i).1;
    SolidRewritten(r, b, i, m, d, j, n);
    assert Token(p, d, j) == (n, text);
  }

  lemma {:induction false} OneTogether(r: Rewriting, m: Mode, b: seq<byte>, i: nat, p: Mode, d: seq<byte>, j: nat) returns (n: nat, k: nat, text: seq<byte>)
    requires Under(r, m, b, i, p, d, j) && !Stops(m, b, i)
    ensures Together(r, m, b, i, n, p, d, j, k, text) && Under(r, m, b, i + n, p, d, j + k)
  {
    if IsSpace(b[i]) {
      n, text := SpaceTogether(r, m, b, i, p, d, j);
      k := 1;
    } else {
      n, text := SolidTogether(r, m, b, i, p, d, j);
      k := n;
    }
  }

  lemma {:induction false} StopTogether(r: Rewriting, m: Mode, b: seq<byte>, i: nat, p: Mode, d: seq<byte>, j: nat)
    requires Under(r, m, b, i, p, d, j) && Stops(m, b, i)
    ensures Decode(m, b, i) == Decode(p, d, j)
  {
    if i == |b| { assert b[i..] == []; } else { SolidRewritten(r, b, i, m, d, j, Token(m, b, i).0); }
  }

  lemma {:induction false} Rewritten(r: Rewriting, m: Mode, b: seq<byte>, i: nat, p: Mode, d: seq<byte>, j: nat)
    requires Under(r, m, b, i, p, d, j)
    ensures Decode(m, b, i) == Decode(p, d, j)
    decreases |b| - i
  {
    if Stops(m, b, i) {
      StopTogether(r, m, b, i, p, d, j);
    } else {
      var n, k, text := OneTogether(r, m, b, i, p, d, j);
      Rewritten(r, m, b, i + n, p, d, j + k);
      TokenForToken(r, m, b, i, n, p, d, j, k, text);
    }
  }

  lemma {:induction false} TokenForToken(r: Rewriting, m: Mode, b: seq<byte>, i: nat, n: nat, p: Mode, d: seq<byte>, j: nat, k: nat, text: seq<byte>)
    requires Together(r, m, b, i, n, p, d, j, k, text) && Decode(m, b, i + n) == Decode(p, d, j + k)
    ensures Decode(m, b, i) == Decode(p, d, j)
  {
    DecodeToken(m, b, i, n, text);
    DecodeToken(p, d, j, k, text);
  }

  /** Decoding with end-of-line conversion is decoding the text with its line ends
      normalised; with white space conversion, the same text with spaces; with
      normalisation, the text with single spaces. */
  lemma {:induction false} DecodesRewritten(m: Mode, b: seq<byte>)
    requires !IsSpace(m.stop)
    ensures m.eol && !m.wconv && !m.wnorm ==> Decode(m, b, 0) == Decode(Plain(m), Normalised(b), 0)
    ensures m.wconv && !m.wnorm ==> Decode(m, b, 0) == Decode(Plain(m), Spaced(Normalised(b)), 0)
    ensures m.wnorm ==> Decode(m, b, 0) == Decode(Plain(m), Collapsed(b), 0)
  {
    assert b[0..] == b;
    var n, s, c := Normalised(b), Spaced(Normalised(b)), Collapsed(b);
    assert n[0..] == n && s[0..] == s && c[0..] == c;
    if m.eol && !m.wconv && !m.wnorm { Rewritten(ToLineFeeds, m, b, 0, Plain(m), n, 0); }
    if m.wconv && !m.wnorm { Rewritten(ToSpaces, m, b, 0, Plain(m), s, 0); }
    if m.wnorm { Rewritten(ToOneSpace, m, b, 0, Plain(m), c, 0); }
  }

  // ---------------------------------------------------------------------
  // Decoding a part by itself.

  // Decoding goes over no delimiter.
  lemma {:induction false} NoStopInside(m: Mode, b: seq<byte>, v: nat)
    requires Ends(m.stop) && !IsSpace(m.stop) && !m.wnorm
    ensures forall k :: v <= k < DecodeEnd(m, b, v) ==> k < |b| && b[k] != m.stop && b[k] != NUL
    decreases |b| - v
  {
    if !Stops(m, b, v) {
      TokenInside(m, b, v);
      NoStopInside(m, b, v + Token(m, b, v).0);
      DecodeToken(m, b, v, Token(m, b, v).0, Token(m, b, v).1);
    }
  }

  lemma {:induction false} TokenInside(m: Mode, b: seq<byte>, v: nat)
    requires Ends(m.stop) && !IsSpace(m.stop) && !m.wnorm && !Stops(m, b, v)
    ensures forall k :: v <= k < v + Token(m, b, v).0 ==> k < |b| && b[k] != m.stop && b[k] != NUL
  {
    if b[v] == AMP && Reference(b, v).Some? {
      SameReference(b, v, b, v);
      ReferenceInside(b, v);
    }
  }

  lemma {:induction false} ReferenceInside(b: seq<byte>, v: nat)
    requires v < |b| && b[v] == AMP && Reference(b, v).Some?
    ensures forall k :: v <= k < v + Reference(b, v).value.0 ==> k < |b| && b[k] != NUL
  {
    if ByteAt(b, v + 1) == HASH {
      NumericInside(b, v);
    } else {
      NamedInside(b, v);
    }
  }

  lemma {:induction false} NumericInside(b: seq<byte>, v: nat)
    requires v < |b| && b[v] == AMP && ByteAt(b, v + 1) == HASH && Numeric(b, v).Some?
    ensures forall k :: v <= k < v + Numeric(b, v).value.0 ==> k < |b| && b[k] != NUL
  {
    var j, hex := DigitsAt(b, v), ByteAt(b, v + 2) == 120;
    var e := ScanNumber(b, j, hex, 0).0;
    forall k | v <= k < v + Numeric(b, v).value.0 ensures k < |b| && b[k] != NUL {
      if j <= k < e { assert DigitValue(b[k], hex) >= 0; }
    }
  }

  lemma {:induction false} NamedInside(b: seq<byte>, v: nat)
    requires v < |b| && Named(b, v).Some?
    ensures forall k :: v <= k < v + Named(b, v).value.0 ==> k < |b| && b[k] != NUL
  {
    if Lit(b, v, AMP_NAME) { NameInside(b, v, AMP_NAME); }
    else if Lit(b, v, APOS_NAME) { NameInside(b, v, APOS_NAME); }
    else if Lit(b, v, GT_NAME) { NameInside(b, v, GT_NAME); }
    else if Lit(b, v, LT_NAME) { NameInside(b, v, LT_NAME); }
    else { NameInside(b, v, QUOT_NAME); }
  }

  lemma NameInside(b: seq<byte>, v: nat, name: seq<byte>)
    requires Lit(b, v, name) && NulFree(name)
    ensures forall k :: v <= k < v + |name| ==> k < |b| && b[k] != NUL
  {
    forall k | v <= k < v + |name| ensures b[k] != NUL { LitAt(b, v, name, k - v); }
  }

  // What stands between v and its delimiter at e.
  ghost predicate Raw(m: Mode, b: seq<byte>, v: nat, e: nat) {
    && v <= e < |b| && b[e] == m.stop && Ends(m.stop) && !IsSpace(m.stop) && !m.wnorm
    && forall k :: v <= k < e ==> b[k] != m.stop && b[k] != NUL
  }

  lemma {:induction false} RawSolid(b: seq<byte>, e: nat, i: nat, v: nat, r: seq<byte>)
    requires v <= i <= e < |b| && Ends(b[e]) && r == b[v..e]
    ensures Solid(r, i - v) == Solid(b, i)
    decreases e - i
  {
    if i < e {
      assert r[i - v] == b[i];
      if !Ends(b[i]) { RawSolid(b, e, i + 1, v, r); }
    }
  }

  lemma {:induction false} RawAlike(b: seq<byte>, e: nat, i: nat, v: nat, r: seq<byte>)
    requires v <= i < e < |b| && Ends(b[e]) && r == b[v..e]
    ensures Alike(b, i, r, i - v)
  {
    var k := Solid(b, i);
    RawSolid(b, e, i, v, r);
    assert i + k <= e;
    SliceOfSlice(b, v, e, i, i + k);
  }

  lemma SliceOfSlice(b: seq<byte>, v: nat, e: nat, i: nat, j: nat)
    requires v <= i <= j <= e <= |b|
    ensures b[v..e][i - v..j - v] == b[i..j]
  {
    var x, y := b[v..e][i - v..j - v], b[i..j];
    forall k | 0 <= k < j - i ensures x[k] == y[k] { assert x[k] == b[v..e][i - v + k] == b[i + k]; }
    assert |x| == |y|;
  }

  lemma {:induction false} RawToken(m: Mode, b: seq<byte>, v: nat, e: nat, i: nat, r: seq<byte>)
    requires Raw(m, b, v, e) && v <= i < e && r == b[v..e]
    ensures !Stops(m, b, i) && !Stops(m, r, i - v) && Token(m, r, i - v) == Token(m, b, i) && i + Token(m, b, i).0 <= e
  {
    assert r[i - v] == b[i];
    if i + 1 < e { assert r[i + 1 - v] == b[i + 1]; }
    RawAlike(b, e, i, v, r);
    if b[i] == AMP {
      SameReference(b, i, r, i - v);
      RawSolid(b, e, i, v, r);
    }
  }

  /** The text up to its delimiter decodes as it does alone. */
  lemma {:induction false} RawDecodes(m: Mode, b: seq<byte>, v: nat, e: nat, i: nat, j: nat, r: seq<byte>)
    requires Raw(m, b, v, e) && i == v + j && i <= e && r == b[v..e]
    ensures DecodeEnd(m, b, i) == e && Decode(m, b, i) == Decode(m, r, j)
    decreases e - i
  {
    if i < e {
      var n, text := RawStep(m, b, v, e, i, j, r);
      RawDecodes(m, b, v, e, i + n, j + n, r);
      TokenMore(m, b, i, r, j, n, text);
    }
  }

  lemma {:induction false} RawStep(m: Mode, b: seq<byte>, v: nat, e: nat, i: nat, j: nat, r: seq<byte>) returns (n: nat, text: seq<byte>)
    requires Raw(m, b, v, e) && i == v + j && i < e && r == b[v..e]
    ensures 1 <= n && i + n <= e && !Stops(m, b, i) && Token(m, b, i) == (n, text) && !Stops(m, r, j) && Token(m, r, j) == (n, text)
  {
    RawToken(m, b, v, e, i, r);
    n, text := Token(m, b, i).0, Token(m, b, i).1;
  }

  lemma {:induction false} TokenMore(m: Mode, b: seq<byte>, i: nat, r: seq<byte>, j: nat, n: nat, text: seq<byte>)
    requires !Stops(m, b, i) && Token(m, b, i) == (n, text) && !Stops(m, r, j) && Token(m, r, j) == (n, text)
    requires Decode(m, b, i + n) == Decode(m, r, j + n)
    ensures Decode(m, b, i) == Decode(m, r, j) && DecodeEnd(m, b, i) == DecodeEnd(m, b, i + n)
  {
    DecodeToken(m, b, i, n, text);
    DecodeToken(m, r, j, n, text);
  }
}
