/** pugixml.cpp, xml_buffered_writer: text is collected in a fixed buffer, cut
    where no character is split, converted piece by piece and handed over. */
module OutputWriters {
  import opened Bytes
  import opened Utf
  import Transcoding

  // ---------------------------------------------------------------------
  // Text in pieces.

  function Join(pieces: seq<seq<byte>>): (d: seq<byte>) {
    if pieces == [] then [] else Join(pieces[..|pieces| - 1]) + pieces[|pieces| - 1]
  }

  function Each(f: seq<byte> -> seq<byte>, pieces: seq<seq<byte>>): (b: seq<byte>) {
    if pieces == [] then [] else Each(f, pieces[..|pieces| - 1]) + f(pieces[|pieces| - 1])
  }

  // What comes out if every piece is converted by itself.
  function ConvertEach(e: Encoding, pieces: seq<seq<byte>>): (b: seq<byte>) {
    Each((d: seq<byte>) => Convert(e, d), pieces)
  }

  // A sequence of the whole text begins in front of piece k and ends behind.
  ghost predicate StraddledAt(pieces: seq<seq<byte>>, k: nat)
    requires k <= |pieces|
  {
    Straddles(Join(pieces[..k]), Join(pieces[k..]))
  }

  ghost predicate NoneStraddled(pieces: seq<seq<byte>>) {
    forall k :: 0 <= k <= |pieces| ==> !StraddledAt(pieces, k)
  }

  lemma {:induction false} JoinSum(a: seq<seq<byte>>, b: seq<seq<byte>>)
    ensures Join(a + b) == Join(a) + Join(b)
    decreases |b|
  {
    if b == [] {
      assert a + b == a;
    } else {
      var n := |b| - 1;
      assert (a + b)[..|a| + n] == a + b[..n] && (a + b)[|a| + n] == b[n];
      JoinSum(a, b[..n]);
      SumAssociates(Join(a), Join(b[..n]), b[n]);
    }
  }

  lemma {:induction false} EachSum(f: seq<byte> -> seq<byte>, a: seq<seq<byte>>, b: seq<seq<byte>>)
    ensures Each(f, a + b) == Each(f, a) + Each(f, b)
    decreases |b|
  {
    if b == [] {
      assert a + b == a;
    } else {
      var n := |b| - 1;
      assert (a + b)[..|a| + n] == a + b[..n] && (a + b)[|a| + n] == b[n];
      EachSum(f, a, b[..n]);
      SumAssociates(Each(f, a), Each(f, b[..n]), f(b[n]));
    }
  }

  lemma {:induction false} EachMore(f: seq<byte> -> seq<byte>, a: seq<seq<byte>>, y: seq<byte>)
    ensures Each(f, a + [y]) == Each(f, a) + f(y)
  {
    var more := a + [y];
    assert more[..|more| - 1] == a;
  }

  // Two pieces never give more than the whole, and less exactly if a sequence is cut.
  lemma {:induction false} TwoPieces(e: Encoding, x: seq<byte>, y: seq<byte>)
    ensures |Convert(e, x)| + |Convert(e, y)| <= |Convert(e, x + y)|
    ensures |Convert(e, x)| + |Convert(e, y)| == |Convert(e, x + y)| <==> e.Utf8? || !Straddles(x, y)
  {
    ConvertCut(e, x, y);
    if !e.Utf8? && Straddles(x, y) { LostCharacter(e, x, y); }
  }

  lemma {:induction false} LastConverted(e: Encoding, pieces: seq<seq<byte>>, y: seq<byte>, more: seq<seq<byte>>)
    requires more == pieces + [y]
    ensures ConvertEach(e, more) == ConvertEach(e, pieces) + Convert(e, y)
  {
    EachMore((d: seq<byte>) => Convert(e, d), pieces, y);
  }

  lemma {:induction false} NeverMore(e: Encoding, pieces: seq<seq<byte>>)
    ensures |ConvertEach(e, pieces)| <= |Convert(e, Join(pieces))|
    decreases |pieces|
  {
    if pieces != [] {
      var n := |pieces| - 1;
      NeverMore(e, pieces[..n]);
      TwoPieces(e, Join(pieces[..n]), pieces[n]);
      LastConverted(e, pieces[..n], pieces[n], pieces);
    }
  }

  lemma {:induction false} LostWhereStraddled(e: Encoding, pieces: seq<seq<byte>>, k: nat)
    requires k <= |pieces| && StraddledAt(pieces, k) && !e.Utf8?
    ensures |ConvertEach(e, pieces)| < |Convert(e, Join(pieces))|
  {
    var a, b := pieces[..k], pieces[k..];
    assert a + b == pieces;
    JoinSum(a, b);
    EachSum((d: seq<byte>) => Convert(e, d), a, b);
    NeverMore(e, a);
    NeverMore(e, b);
    TwoPieces(e, Join(a), Join(b));
  }

  // What is cut for the text so far stays cut when more follows.
  lemma {:induction false} StraddlesMore(x: seq<byte>, y: seq<byte>, z: seq<byte>)
    requires Straddles(x, y)
    ensures Straddles(x, y + z)
    decreases |x|
  {
    var n := Lead(x + y).0;
    assert x + (y + z) == (x + y) + z;
    LeadOfMore(x + y, z);
    if n <= |x| { StraddlesMore(x[n..], y, z); }
  }

  lemma LeadOfMore(d: seq<byte>, z: seq<byte>)
    requires d != []
    ensures Lead(d).0 > 1 ==> Lead(d + z) == Lead(d)
    ensures Lead(d).0 <= Lead(d + z).0
  {
    assert forall k :: 0 <= k < |d| ==> (d + z)[k] == d[k];
  }

  /** Converting pieces one by one gives the whole text converted at once if and only if
      no sequence of the text is cut. */
  lemma {:induction false} PieceByPiece(e: Encoding, pieces: seq<seq<byte>>)
    ensures ConvertEach(e, pieces) == Convert(e, Join(pieces)) <==> e.Utf8? || NoneStraddled(pieces)
  {
    if e.Utf8? || NoneStraddled(pieces) {
      CleanPieces(e, pieces, |pieces|);
      assert pieces[..|pieces|] == pieces;
    } else {
      var k: nat :| k <= |pieces| && StraddledAt(pieces, k);
      LostWhereStraddled(e, pieces, k);
    }
  }

  lemma {:induction false} CleanPieces(e: Encoding, pieces: seq<seq<byte>>, n: nat)
    requires n <= |pieces| && (e.Utf8? || NoneStraddled(pieces))
    ensures ConvertEach(e, pieces[..n]) == Convert(e, Join(pieces[..n]))
    decreases n
  {
    if n == 0 {
      Nothing(e);
    } else {
      var x, y := Join(pieces[..n - 1]), pieces[n - 1];
      assert pieces[..n][..n - 1] == pieces[..n - 1];
      CleanPieces(e, pieces, n - 1);
      if !e.Utf8? {
        assert !StraddledAt(pieces, n - 1);
        assert pieces[n - 1..] == [y] + pieces[n..];
        JoinSum([y], pieces[n..]);
        OnePiece(y);
        if Straddles(x, y) { StraddlesMore(x, y, Join(pieces[n..])); }
      }
      ConvertCut(e, x, y);
      LastConverted(e, pieces[..n - 1], y, pieces[..n]);
    }
  }

  lemma Nothing(e: Encoding)
    ensures Convert(e, []) == []
  {
  }

  lemma OnePiece(y: seq<byte>)
    ensures Join([y]) == y
  {
    assert [y][..0] == [] && Join([]) + y == y;
  }

  // ---------------------------------------------------------------------
  // What the writer does, as functions: the pieces it has handed over and what is
  // still in its buffer.

  datatype Progress = Progress(chunks: seq<seq<byte>>, pending: seq<byte>)

  datatype Call = Buffer(text: seq<byte>) | CString(text: seq<byte>) | Chars(text: seq<byte>)

  predicate CallOk(c: Call) {
    c.Chars? ==> 1 <= |c.text| <= 6
  }

  function Flushed(w: Progress): Progress {
    Progress(w.chunks + [w.pending], [])
  }

  // write_direct behind the flush, for text that has to be converted.
  function InChunks(capacity: nat, chunks: seq<seq<byte>>, data: seq<byte>): (w: Progress)
    requires 8 <= capacity
    ensures |w.pending| <= capacity
    decreases |data|
  {
    if |data| <= capacity then Progress(chunks, data)
    else var v := ValidLength(data[..capacity]); InChunks(capacity, chunks + [data[..v]], data[v..])
  }

  function Direct(e: Encoding, capacity: nat, w: Progress, data: seq<byte>): (r: Progress)
    requires 8 <= capacity
    ensures |r.pending| <= capacity
  {
    if e.Utf8? && capacity < |data| then Progress(Flushed(w).chunks + [data], [])
    else InChunks(capacity, Flushed(w).chunks, data)
  }

  function AfterString(e: Encoding, capacity: nat, w: Progress, d: seq<byte>): (r: Progress)
    requires 8 <= capacity && |w.pending| <= capacity
    ensures |r.pending| <= capacity
  {
    if |w.pending| + |d| < capacity then w.(pending := w.pending + d)
    else
      var room := capacity - |w.pending|;
      var v := ValidLength(d[..room]);
      Direct(e, capacity, w.(pending := w.pending + d[..v]), d[v..])
  }

  function After(e: Encoding, capacity: nat, w: Progress, c: Call): (r: Progress)
    requires 8 <= capacity && |w.pending| <= capacity && CallOk(c)
    ensures |r.pending| <= capacity
  {
    match c
    case Buffer(d) => if |w.pending| + |d| <= capacity then w.(pending := w.pending + d) else Direct(e, capacity, w, d)
    case CString(d) => AfterString(e, capacity, w, d)
    case Chars(d) => var r := if |w.pending| > capacity - |d| then Flushed(w) else w; r.(pending := r.pending + d)
  }

  ghost predicate CallsOk(calls: seq<Call>) {
    forall i :: 0 <= i < |calls| ==> CallOk(calls[i])
  }

  ghost function AfterAll(e: Encoding, capacity: nat, calls: seq<Call>): (r: Progress)
    requires 8 <= capacity && CallsOk(calls)
    ensures |r.pending| <= capacity
  {
    if calls == [] then Progress([], [])
    else After(e, capacity, AfterAll(e, capacity, calls[..|calls| - 1]), calls[|calls| - 1])
  }

  // The pieces of a whole run, with the last flush.
  ghost function Pieces(e: Encoding, capacity: nat, calls: seq<Call>): seq<seq<byte>>
    requires 8 <= capacity && CallsOk(calls)
  {
    Flushed(AfterAll(e, capacity, calls)).chunks
  }

  function Texts(calls: seq<Call>): (r: seq<seq<byte>>)
    ensures |r| == |calls| && forall i :: 0 <= i < |r| ==> r[i] == calls[i].text
  {
    seq(|calls|, i requires 0 <= i < |calls| => calls[i].text)
  }

  function TextOf(w: Progress): seq<byte> {
    Join(w.chunks) + w.pending
  }

  lemma {:induction false} JoinMore(pieces: seq<seq<byte>>, y: seq<byte>)
    ensures Join(pieces + [y]) == Join(pieces) + y
  {
    JoinSum(pieces, [y]);
    OnePiece(y);
  }

  lemma {:induction false} InChunksText(capacity: nat, chunks: seq<seq<byte>>, data: seq<byte>)
    requires 8 <= capacity
    ensures TextOf(InChunks(capacity, chunks, data)) == Join(chunks) + data
    decreases |data|
  {
    if |data| > capacity {
      var v := ValidLength(data[..capacity]);
      InChunksText(capacity, chunks + [data[..v]], data[v..]);
      JoinMore(chunks, data[..v]);
      assert data == data[..v] + data[v..];
      SumAssociates(Join(chunks), data[..v], data[v..]);
    }
  }

  lemma {:induction false} DirectText(e: Encoding, capacity: nat, w: Progress, data: seq<byte>)
    requires 8 <= capacity
    ensures TextOf(Direct(e, capacity, w, data)) == TextOf(w) + data
  {
    var f := Flushed(w).chunks;
    JoinMore(w.chunks, w.pending);
    InChunksText(capacity, f, data);
    JoinMore(f, data);
    assert Join(f + [data]) + [] == Join(f + [data]);
  }

  lemma {:induction false} FlushedText(w: Progress)
    ensures TextOf(Flushed(w)) == TextOf(w)
  {
    JoinMore(w.chunks, w.pending);
    assert TextOf(w) + [] == TextOf(w);
  }

  lemma {:induction false} PendingMore(w: Progress, d: seq<byte>)
    ensures TextOf(w.(pending := w.pending + d)) == TextOf(w) + d
  {
    SumAssociates(Join(w.chunks), w.pending, d);
  }

  lemma {:induction false} StringText(e: Encoding, capacity: nat, w: Progress, d: seq<byte>)
    requires 8 <= capacity && |w.pending| <= capacity
    ensures TextOf(AfterString(e, capacity, w, d)) == TextOf(w) + d
  {
    if |w.pending| + |d| < capacity {
      PendingMore(w, d);
    } else {
      var v := ValidLength(d[..capacity - |w.pending|]);
      PendingMore(w, d[..v]);
      DirectText(e, capacity, w.(pending := w.pending + d[..v]), d[v..]);
      SumAssociates(TextOf(w), d[..v], d[v..]);
      assert d[..v] + d[v..] == d;
    }
  }

  /** Nothing is lost or added on the way through the buffer. */
  lemma {:induction false} AfterText(e: Encoding, capacity: nat, w: Progress, c: Call)
    requires 8 <= capacity && |w.pending| <= capacity && CallOk(c)
    ensures TextOf(After(e, capacity, w, c)) == TextOf(w) + c.text
  {
    match c
    case Buffer(d) => PendingMore(w, d); DirectText(e, capacity, w, d);
    case CString(d) => StringText(e, capacity, w, d);
    case Chars(d) => FlushedText(w); PendingMore(w, d); PendingMore(Flushed(w), d);
  }

  lemma {:induction false} AllText(e: Encoding, capacity: nat, calls: seq<Call>)
    requires 8 <= capacity && CallsOk(calls)
    ensures TextOf(AfterAll(e, capacity, calls)) == Join(Texts(calls))
    decreases |calls|
  {
    if calls != [] {
      var n := |calls| - 1;
      AllText(e, capacity, calls[..n]);
      AfterText(e, capacity, AfterAll(e, capacity, calls[..n]), calls[n]);
      assert Texts(calls)[..n] == Texts(calls[..n]);
    }
  }

  // ---------------------------------------------------------------------
  // Where the text is cut.

  ghost function InFront(w: Progress, k: nat): seq<byte>
    requires k <= |w.chunks|
  {
    Join(w.chunks[..k])
  }

  ghost function Behind(w: Progress, k: nat): seq<byte>
    requires k <= |w.chunks|
  {
    Join(w.chunks[k..]) + w.pending
  }

  lemma {:induction false} FrontAndRest(w: Progress, k: nat)
    requires k <= |w.chunks|
    ensures InFront(w, k) + Behind(w, k) == TextOf(w)
  {
    assert w.chunks[..k] + w.chunks[k..] == w.chunks;
    JoinSum(w.chunks[..k], w.chunks[k..]);
    SumAssociates(Join(w.chunks[..k]), Join(w.chunks[k..]), w.pending);
  }

  lemma Cancel(x: seq<byte>, y: seq<byte>, z: seq<byte>)
    requires x + y == x + z
    ensures y == z
  {
    assert y == (x + y)[|x|..] && z == (x + z)[|x|..];
  }

  // Inside a text, at a place where no sequence is split whatever follows.
  ghost predicate InnerCut(w: Progress, k: nat)
    requires k <= |w.chunks|
  {
    Behind(w, k) != [] && CutOk(InFront(w, k), Behind(w, k))
  }

  // Between two calls.
  ghost predicate CallCut(texts: seq<seq<byte>>, w: Progress, k: nat)
    requires k <= |w.chunks|
  {
    exists i :: 0 <= i <= |texts| && InFront(w, k) == Join(texts[..i])
  }

  ghost predicate Cuts(texts: seq<seq<byte>>, w: Progress) {
    forall k :: 0 <= k <= |w.chunks| ==> CallCut(texts, w, k) || InnerCut(w, k)
  }

  // More text behind the old cuts leaves them what they were.
  lemma {:induction false} OldCut(texts: seq<seq<byte>>, w: Progress, w': Progress, t: seq<byte>, k: nat)
    requires k <= |w.chunks| <= |w'.chunks| && w'.chunks[..|w.chunks|] == w.chunks && TextOf(w') == TextOf(w) + t
    requires CallCut(texts, w, k) || InnerCut(w, k)
    ensures CallCut(texts + [t], w', k) || InnerCut(w', k)
  {
    assert w'.chunks[..k] == w'.chunks[..|w.chunks|][..k] == w.chunks[..k];
    if CallCut(texts, w, k) {
      var i :| 0 <= i <= |texts| && InFront(w, k) == Join(texts[..i]);
      assert (texts + [t])[..i] == texts[..i];
    } else {
      FrontAndRest(w, k);
      FrontAndRest(w', k);
      SumAssociates(InFront(w, k), Behind(w, k), t);
      Cancel(InFront(w, k), Behind(w', k), Behind(w, k) + t);
      assert Behind(w', k)[0] == Behind(w, k)[0];
    }
  }

  lemma {:induction false} ChunkCuts(capacity: nat, chunks: seq<seq<byte>>, data: seq<byte>)
    requires 8 <= capacity
    ensures var r := InChunks(capacity, chunks, data);
            && |chunks| <= |r.chunks| && r.chunks[..|chunks|] == chunks
            && forall k :: |chunks| < k <= |r.chunks| ==> InnerCut(r, k)
    decreases |data|
  {
    if |data| > capacity {
      var v := ValidLength(data[..capacity]);
      var more := chunks + [data[..v]];
      var r := InChunks(capacity, more, data[v..]);
      ChunkCuts(capacity, more, data[v..]);
      assert r.chunks[..|chunks|] == r.chunks[..|more|][..|chunks|] == chunks;
      InChunksText(capacity, more, data[v..]);
      FirstChunk(capacity, chunks, data, v, r);
    }
  }

  lemma {:induction false} CutInside(w: Progress, k: nat, x: seq<byte>, d: seq<byte>, more: seq<byte>)
    requires k <= |w.chunks| && 0 < ValidLength(d) && InFront(w, k) == x + d[..ValidLength(d)]
    requires Behind(w, k) == d[ValidLength(d)..] + more != []
    ensures InnerCut(w, k)
  {
    ValidLengthCuts(x, d, more);
  }

  lemma {:induction false} FirstChunk(capacity: nat, chunks: seq<seq<byte>>, data: seq<byte>, v: nat, r: Progress)
    requires 8 <= capacity < |data| && v == ValidLength(data[..capacity])
    requires |chunks| < |r.chunks| && r.chunks[..|chunks| + 1] == chunks + [data[..v]] && TextOf(r) == Join(chunks + [data[..v]]) + data[v..]
    ensures InnerCut(r, |chunks| + 1)
  {
    var k := |chunks| + 1;
    FrontAndRest(r, k);
    Cancel(InFront(r, k), Behind(r, k), data[v..]);
    JoinMore(chunks, data[..v]);
    assert data[..capacity][..v] == data[..v] && data[..capacity][v..] + data[capacity..] == data[v..];
    CutInside(r, k, Join(chunks), data[..capacity], data[capacity..]);
  }

  lemma {:induction false} DirectCuts(e: Encoding, capacity: nat, w: Progress, data: seq<byte>)
    requires 8 <= capacity
    ensures var r := Direct(e, capacity, w, data);
            && |w.chunks| + 1 <= |r.chunks| && r.chunks[..|w.chunks| + 1] == w.chunks + [w.pending] && r.chunks[..|w.chunks|] == w.chunks
            && InFront(r, |w.chunks| + 1) == TextOf(w)
            && forall k :: |w.chunks| + 1 < k <= |r.chunks| ==> InnerCut(r, k) || InFront(r, k) == TextOf(w) + data
  {
    var f := Flushed(w).chunks;
    JoinMore(w.chunks, w.pending);
    if e.Utf8? && capacity < |data| {
      var r := Direct(e, capacity, w, data);
      JoinMore(f, data);
      assert r.chunks[..|f| + 1] == r.chunks;
      assert r.chunks[..|w.chunks| + 1] == f && r.chunks[..|w.chunks|] == w.chunks;
    } else {
      ChunkCuts(capacity, f, data);
      var r := InChunks(capacity, f, data);
      assert r.chunks[..|w.chunks|] == r.chunks[..|f|][..|w.chunks|] == w.chunks;
    }
  }

  lemma {:induction false} AtEnd(texts: seq<seq<byte>>, d: seq<byte>, w: Progress, k: nat)
    requires k <= |w.chunks|
    ensures InFront(w, k) == Join(texts) ==> CallCut(texts + [d], w, k)
    ensures InFront(w, k) == Join(texts) + d ==> CallCut(texts + [d], w, k)
  {
    var more := texts + [d];
    assert more[..|texts|] == texts && more[..|more|] == more;
    JoinMore(texts, d);
  }

  lemma {:induction false} DirectStep(e: Encoding, capacity: nat, texts: seq<seq<byte>>, w: Progress, d: seq<byte>)
    requires 8 <= capacity && Cuts(texts, w) && TextOf(w) == Join(texts)
    ensures Cuts(texts + [d], Direct(e, capacity, w, d))
  {
    var r := Direct(e, capacity, w, d);
    DirectCuts(e, capacity, w, d);
    DirectText(e, capacity, w, d);
    forall k | 0 <= k <= |r.chunks| ensures CallCut(texts + [d], r, k) || InnerCut(r, k) {
      if k <= |w.chunks| { OldCut(texts, w, r, d, k); } else { AtEnd(texts, d, r, k); }
    }
  }

  // What write_string leaves when the text does not fit: the old pieces, one that ends
  // where it goes back to, and pieces of the rest.
  ghost predicate StringDone(w: Progress, d: seq<byte>, v: nat, r: Progress)
    requires v <= |d|
  {
    && |w.chunks| < |r.chunks| && r.chunks[..|w.chunks|] == w.chunks && TextOf(r) == TextOf(w) + d
    && InFront(r, |w.chunks| + 1) == TextOf(w) + d[..v]
    && forall k :: |w.chunks| + 1 < k <= |r.chunks| ==> InnerCut(r, k) || InFront(r, k) == TextOf(w) + d
  }

  lemma {:induction false} StringIsDone(e: Encoding, capacity: nat, w: Progress, d: seq<byte>, v: nat)
    requires 8 <= capacity && |w.pending| <= capacity <= |w.pending| + |d| && v == ValidLength(d[..capacity - |w.pending|])
    ensures StringDone(w, d, v, AfterString(e, capacity, w, d))
  {
    var u := w.(pending := w.pending + d[..v]);
    StringText(e, capacity, w, d);
    PendingMore(w, d[..v]);
    DirectCuts(e, capacity, u, d[v..]);
    SumAssociates(TextOf(w), d[..v], d[v..]);
    assert d[..v] + d[v..] == d;
  }

  lemma {:induction false} StringStep(e: Encoding, capacity: nat, texts: seq<seq<byte>>, w: Progress, d: seq<byte>)
    requires 8 <= capacity && |w.pending| <= capacity <= |w.pending| + |d| && Cuts(texts, w) && TextOf(w) == Join(texts)
    ensures Cuts(texts + [d], AfterString(e, capacity, w, d))
  {
    var room := capacity - |w.pending|;
    var v := ValidLength(d[..room]);
    var r := AfterString(e, capacity, w, d);
    StringIsDone(e, capacity, w, d, v);
    forall k | 0 <= k <= |r.chunks| ensures CallCut(texts + [d], r, k) || InnerCut(r, k) {
      if k <= |w.chunks| { OldCut(texts, w, r, d, k); } else { NewCut(texts, w, d, room, v, r, k); }
    }
  }

  lemma {:induction false} NewCut(texts: seq<seq<byte>>, w: Progress, d: seq<byte>, room: nat, v: nat, r: Progress, k: nat)
    requires room <= |d| && v == ValidLength(d[..room]) && StringDone(w, d, v, r) && TextOf(w) == Join(texts) && |w.chunks| < k <= |r.chunks|
    ensures CallCut(texts + [d], r, k) || InnerCut(r, k)
  {
    AtEnd(texts, d, r, k);
    if k == |w.chunks| + 1 { GoingBack(texts, w, d, room, v, r, k); }
  }

  // The place write_string goes back to.
  lemma {:induction false} GoingBack(texts: seq<seq<byte>>, w: Progress, d: seq<byte>, room: nat, v: nat, r: Progress, k: nat)
    requires room <= |d| && v == ValidLength(d[..room]) && TextOf(w) == Join(texts) && TextOf(r) == TextOf(w) + d
    requires k <= |r.chunks| && InFront(r, k) == TextOf(w) + d[..v]
    ensures CallCut(texts + [d], r, k) || InnerCut(r, k)
  {
    AtEnd(texts, d, r, k);
    if v == 0 {
      assert TextOf(w) + d[..0] == TextOf(w);
    } else if v == |d| {
      assert d[..v] == d;
    } else {
      FrontAndRest(r, k);
      SumAssociates(TextOf(w), d[..v], d[v..]);
      assert d[..v] + d[v..] == d && d[..room][..v] == d[..v] && d[..room][v..] + d[room..] == d[v..];
      Cancel(InFront(r, k), Behind(r, k), d[v..]);
      CutInside(r, k, TextOf(w), d[..room], d[room..]);
    }
  }

  lemma {:induction false} KeepStep(texts: seq<seq<byte>>, w: Progress, d: seq<byte>)
    requires Cuts(texts, w)
    ensures Cuts(texts + [d], w.(pending := w.pending + d))
  {
    var r := w.(pending := w.pending + d);
    PendingMore(w, d);
    forall k | 0 <= k <= |r.chunks| ensures CallCut(texts + [d], r, k) || InnerCut(r, k) {
      assert r.chunks[..|w.chunks|] == w.chunks;
      OldCut(texts, w, r, d, k);
    }
  }

  lemma {:induction false} FlushStep(texts: seq<seq<byte>>, w: Progress)
    requires Cuts(texts, w) && TextOf(w) == Join(texts)
    ensures Cuts(texts, Flushed(w))
  {
    var r := Flushed(w);
    FlushedText(w);
    assert TextOf(w) + [] == TextOf(w);
    forall k | 0 <= k <= |r.chunks| ensures CallCut(texts, r, k) || InnerCut(r, k) {
      assert r.chunks[..|w.chunks|] == w.chunks;
      if k <= |w.chunks| {
        FlushedCut(texts, w, k);
      } else {
        JoinMore(w.chunks, w.pending);
        assert r.chunks[..k] == r.chunks && texts[..|texts|] == texts;
      }
    }
  }

  lemma {:induction false} FlushedCut(texts: seq<seq<byte>>, w: Progress, k: nat)
    requires k <= |w.chunks| && (CallCut(texts, w, k) || InnerCut(w, k))
    ensures CallCut(texts, Flushed(w), k) || InnerCut(Flushed(w), k)
  {
    var r := Flushed(w);
    assert r.chunks[..k] == w.chunks[..k] && r.chunks[k..] == w.chunks[k..] + [w.pending];
    JoinMore(w.chunks[k..], w.pending);
    assert Behind(r, k) == Behind(w, k);
  }

  // Every place where the writer cuts lies between two calls or splits no sequence.
  lemma {:induction false} AllCuts(e: Encoding, capacity: nat, calls: seq<Call>)
    requires 8 <= capacity && CallsOk(calls)
    ensures Cuts(Texts(calls), AfterAll(e, capacity, calls))
    decreases |calls|
  {
    if calls == [] {
      assert InFront(Progress([], []), 0) == Join(Texts(calls)[..0]);
    } else {
      var n := |calls| - 1;
      var w, texts := AfterAll(e, capacity, calls[..n]), Texts(calls[..n]);
      AllCuts(e, capacity, calls[..n]);
      AllText(e, capacity, calls[..n]);
      StepCuts(e, capacity, texts, w, calls[n]);
      assert Texts(calls) == texts + [calls[n].text];
    }
  }

  lemma {:induction false} StepCuts(e: Encoding, capacity: nat, texts: seq<seq<byte>>, w: Progress, c: Call)
    requires 8 <= capacity && |w.pending| <= capacity && CallOk(c) && Cuts(texts, w) && TextOf(w) == Join(texts)
    ensures Cuts(texts + [c.text], After(e, capacity, w, c))
  {
    var d := c.text;
    match c
    case Buffer(_) => if |w.pending| + |d| <= capacity { KeepStep(texts, w, d); } else { DirectStep(e, capacity, texts, w, d); }
    case CString(_) => if |w.pending| + |d| < capacity { KeepStep(texts, w, d); } else { StringStep(e, capacity, texts, w, d); }
    case Chars(_) => FlushStep(texts, w); KeepStep(texts, w, d); KeepStep(texts, Flushed(w), d);
  }

  // ---------------------------------------------------------------------
  // Whole runs.

  lemma {:induction false} PiecesText(e: Encoding, capacity: nat, calls: seq<Call>)
    requires 8 <= capacity && CallsOk(calls)
    ensures Join(Pieces(e, capacity, calls)) == Join(Texts(calls)) && Cuts(Texts(calls), Flushed(AfterAll(e, capacity, calls)))
  {
    var w := AfterAll(e, capacity, calls);
    AllText(e, capacity, calls);
    AllCuts(e, capacity, calls);
    FlushStep(Texts(calls), w);
    FlushedText(w);
    assert Join(Flushed(w).chunks) + [] == Join(Flushed(w).chunks);
  }

  /** For every capacity and all calls: the output is the whole text converted at once if
      and only if none of the writer's cuts splits a sequence. */
  lemma {:induction false} OutputIsWhole(e: Encoding, capacity: nat, calls: seq<Call>)
    requires 8 <= capacity && CallsOk(calls)
    ensures ConvertEach(e, Pieces(e, capacity, calls)) == Convert(e, Join(Texts(calls))) <==> e.Utf8? || NoneStraddled(Pieces(e, capacity, calls))
  {
    PiecesText(e, capacity, calls);
    PieceByPiece(e, Pieces(e, capacity, calls));
  }

  /** A cut that splits a sequence lies between two calls: inside a text none does. */
  lemma {:induction false} OnlyBetweenCalls(e: Encoding, capacity: nat, calls: seq<Call>, k: nat) returns (i: nat)
    requires 8 <= capacity && CallsOk(calls) && k <= |Pieces(e, capacity, calls)| && StraddledAt(Pieces(e, capacity, calls), k)
    ensures i <= |calls| && StraddledAt(Texts(calls), i) && Join(Pieces(e, capacity, calls)[..k]) == Join(Texts(calls)[..i])
  {
    var r, texts := Flushed(AfterAll(e, capacity, calls)), Texts(calls);
    PiecesText(e, capacity, calls);
    assert Behind(r, k) == Join(r.chunks[k..]) + [] == Join(r.chunks[k..]);
    if InnerCut(r, k) { CutOkIsClean(InFront(r, k), Behind(r, k)); }
    i :| 0 <= i <= |texts| && InFront(r, k) == Join(texts[..i]);
    assert texts[..i] + texts[i..] == texts;
    JoinSum(texts[..i], texts[i..]);
    FrontAndRest(r, k);
    assert TextOf(r) == Join(r.chunks) + [] == Join(r.chunks);
    Cancel(InFront(r, k), Behind(r, k), Join(texts[i..]));
  }

  /** So where no two texts share a sequence, the output is right for every capacity. */
  lemma {:induction false} CleanCallsArrive(e: Encoding, capacity: nat, calls: seq<Call>)
    requires 8 <= capacity && CallsOk(calls) && NoneStraddled(Texts(calls))
    ensures ConvertEach(e, Pieces(e, capacity, calls)) == Convert(e, Join(Texts(calls)))
  {
    OutputIsWhole(e, capacity, calls);
    if k: nat :| k <= |Pieces(e, capacity, calls)| && StraddledAt(Pieces(e, capacity, calls), k) {
      var i := OnlyBetweenCalls(e, capacity, calls, k);
    }
  }

  // ---------------------------------------------------------------------
  // Where two texts do share a sequence.

  // While the text is shorter than the buffer nothing is cut.
  lemma {:induction false} AllPending(e: Encoding, capacity: nat, calls: seq<Call>)
    requires 8 <= capacity && CallsOk(calls) && |Join(Texts(calls))| < capacity
    ensures AfterAll(e, capacity, calls) == Progress([], Join(Texts(calls)))
    decreases |calls|
  {
    if calls != [] {
      var n := |calls| - 1;
      assert Texts(calls) == Texts(calls[..n]) + [calls[n].text];
      JoinMore(Texts(calls[..n]), calls[n].text);
      AllPending(e, capacity, calls[..n]);
    }
  }

  // Neither is it when it fills the buffer, unless by write_string.
  lemma {:induction false} JustPending(e: Encoding, calls: seq<Call>)
    requires CallsOk(calls) && 8 <= |Join(Texts(calls))| && calls != [] && !calls[|calls| - 1].CString? && calls[|calls| - 1].text != []
    ensures AfterAll(e, |Join(Texts(calls))|, calls) == Progress([], Join(Texts(calls)))
  {
    var n := |calls| - 1;
    assert Texts(calls) == Texts(calls[..n]) + [calls[n].text];
    JoinMore(Texts(calls[..n]), calls[n].text);
    AllPending(e, |Join(Texts(calls))|, calls[..n]);
  }

  // A buffer that has to be flushed between call i - 1 and call i: just filled, or with
  // one byte left where write_string would not let it be filled.
  function Room(calls: seq<Call>, i: nat): nat
    requires 0 < i < |calls|
  {
    |Join(Texts(calls[..i]))| + if calls[i - 1].CString? then 1 else 0
  }

  ghost predicate Flushable(calls: seq<Call>, i: nat) {
    && 0 < i < |calls| && calls[i - 1].text != [] && calls[i].text != [] && 8 <= |Join(Texts(calls[..i]))|
    && (calls[i - 1].CString? ==> calls[i].CString? || 2 <= |calls[i].text|)
  }

  /** Two texts that share a sequence, behind at least 8 bytes: there is a capacity at which
      the character is lost.  (Not if a single byte follows a C string: the string leaves
      the buffer as full as that byte needs.) */
  lemma {:induction false} SharedSequenceIsLost(e: Encoding, calls: seq<Call>, i: nat)
    requires CallsOk(calls) && !e.Utf8? && Flushable(calls, i) && StraddledAt(Texts(calls), i)
    ensures 8 <= Room(calls, i) && |ConvertEach(e, Pieces(e, Room(calls, i), calls))| < |Convert(e, Join(Texts(calls)))|
  {
    var capacity := Room(calls, i);
    var w, text := AfterAll(e, capacity, calls[..i]), Join(Texts(calls[..i]));
    if calls[i - 1].CString? { AllPending(e, capacity, calls[..i]); } else { JustPending(e, calls[..i]); }
    assert w == Progress([], text);
    FlushedThere(e, capacity, w, calls[i]);
    assert calls[..i + 1][..i] == calls[..i];
    CutStays(e, capacity, calls, i + 1, text);
    PiecesText(e, capacity, calls);
    assert Texts(calls)[..i] == Texts(calls[..i]);
    FirstPieceCuts(Pieces(e, capacity, calls), Texts(calls), i, text);
    LostWhereStraddled(e, Pieces(e, capacity, calls), 1);
  }

  lemma {:induction false} FirstPieceCuts(pieces: seq<seq<byte>>, texts: seq<seq<byte>>, i: nat, text: seq<byte>)
    requires i <= |texts| && pieces != [] && pieces[0] == text == Join(texts[..i]) && Join(pieces) == Join(texts) && StraddledAt(texts, i)
    ensures StraddledAt(pieces, 1)
  {
    assert pieces[..1] == [text];
    OnePiece(text);
    assert texts[..i] + texts[i..] == texts && pieces[..1] + pieces[1..] == pieces;
    JoinSum(texts[..i], texts[i..]);
    JoinSum(pieces[..1], pieces[1..]);
    Cancel(text, Join(pieces[1..]), Join(texts[i..]));
  }

  lemma {:induction false} FlushedThere(e: Encoding, capacity: nat, w: Progress, c: Call)
    requires 8 <= capacity && CallOk(c) && c.text != [] && w.chunks == [] && w.pending != []
    requires |w.pending| == capacity || (|w.pending| + 1 == capacity && (c.CString? || 2 <= |c.text|))
    ensures BeginsWith(After(e, capacity, w, c), w.pending)
  {
    var d := c.text;
    if c.CString? {
      var room := capacity - |w.pending|;
      assert ValidLength(d[..room]) == 0 && d[..0] == [] && d[0..] == d && w.pending + [] == w.pending;
    }
    DirectCuts(e, capacity, w, d);
    if !c.Chars? {
      var r := Direct(e, capacity, w, d);
      assert r.chunks[0] == r.chunks[..1][0];
    }
  }

  ghost predicate BeginsWith(w: Progress, text: seq<byte>) {
    w.chunks != [] && w.chunks[0] == text
  }

  // The first piece stays the first.
  lemma {:induction false} CutStays(e: Encoding, capacity: nat, calls: seq<Call>, i: nat, text: seq<byte>)
    requires 8 <= capacity && CallsOk(calls) && i <= |calls| && BeginsWith(AfterAll(e, capacity, calls[..i]), text)
    ensures BeginsWith(AfterAll(e, capacity, calls), text)
    decreases |calls|
  {
    var n := |calls| - 1;
    if i == |calls| {
      assert calls[..i] == calls;
    } else {
      assert calls[..n][..i] == calls[..i];
      CutStays(e, capacity, calls[..n], i, text);
      ChunksGrow(e, capacity, AfterAll(e, capacity, calls[..n]), calls[n], text);
    }
  }

  lemma {:induction false} DirectGrows(e: Encoding, capacity: nat, w: Progress, d: seq<byte>, text: seq<byte>)
    requires 8 <= capacity && BeginsWith(w, text)
    ensures BeginsWith(Direct(e, capacity, w, d), text)
  {
    DirectCuts(e, capacity, w, d);
    var r := Direct(e, capacity, w, d);
    assert r.chunks[..|w.chunks|][0] == r.chunks[0];
  }

  lemma {:induction false} ChunksGrow(e: Encoding, capacity: nat, w: Progress, c: Call, text: seq<byte>)
    requires 8 <= capacity && |w.pending| <= capacity && CallOk(c) && BeginsWith(w, text)
    ensures BeginsWith(After(e, capacity, w, c), text)
  {
    var d := c.text;
    if c.CString? && |w.pending| + |d| >= capacity {
      var v := ValidLength(d[..capacity - |w.pending|]);
      DirectGrows(e, capacity, w.(pending := w.pending + d[..v]), d[v..], text);
    } else {
      DirectGrows(e, capacity, w, d, text);
    }
  }

  /** A text that fits the smallest buffer is never cut: even half sequences come out right,
      whatever the capacity. */
  lemma {:induction false} ShortTextArrives(e: Encoding, capacity: nat, calls: seq<Call>)
    requires 8 <= capacity && CallsOk(calls) && |Join(Texts(calls))| < capacity
    ensures ConvertEach(e, Pieces(e, capacity, calls)) == Convert(e, Join(Texts(calls)))
  {
    AllPending(e, capacity, calls);
    var text := Join(Texts(calls));
    var pieces: seq<seq<byte>> := [text];
    assert Pieces(e, capacity, calls) == pieces == [] + [text];
    LastConverted(e, [], text, pieces);
  }

  // ---------------------------------------------------------------------

  // get_valid_length
  method GetValidLength(d: seq<byte>) returns (v: nat)
    ensures v == ValidLength(d)
  {
    if |d| < 5 { return 0; }
    for i := 1 to 5
      invariant forall k :: |d| - i < k < |d| ==> Cont(d[k])
    {
      if !Cont(d[|d| - i]) { return |d| - i; }
    }
    v := |d|;
  }

  lemma {:induction false} NextChunk(capacity: nat, chunks: seq<seq<byte>>, data: seq<byte>, pos: nat, n: nat)
    requires 8 <= capacity && pos + capacity < |data| && n == ValidLength(data[pos..pos + capacity])
    ensures 1 <= n <= capacity
    ensures InChunks(capacity, chunks, data[pos..]) == InChunks(capacity, chunks + [data[pos..pos + n]], data[pos + n..])
  {
    var rest := data[pos..];
    assert rest[..capacity] == data[pos..pos + capacity] && rest[..n] == data[pos..pos + n] && rest[n..] == data[pos + n..];
  }

  class BufferedWriter {
    const encoding: Encoding
    const buffer: array<byte>
    var bufsize: nat
    var out: seq<byte>         // what the xml_writer has received
    ghost var w: Progress

    ghost predicate Valid()
      reads this, buffer
    {
      && 8 <= buffer.Length && bufsize <= buffer.Length
      && buffer[..bufsize] == w.pending && out == ConvertEach(encoding, w.chunks)
    }

    constructor (encoding: Encoding, capacity: nat)
      requires 8 <= capacity
      ensures Valid() && fresh(buffer) && this.encoding == encoding && buffer.Length == capacity && w == Progress([], [])
    {
      this.encoding := encoding;
      buffer := new byte[capacity];
      bufsize, out, w := 0, [], Progress([], []);
    }

    // flush(data, size); the scratch buffer has four bytes for each of the buffer
    method FlushChunk(data: seq<byte>)
      requires |data| <= buffer.Length && out == ConvertEach(encoding, w.chunks)
      modifies this`out, this`w
      ensures w == old(w).(chunks := old(w).chunks + [data]) && out == ConvertEach(encoding, w.chunks)
    {
      ghost var more := w.chunks + [data];
      LastConverted(encoding, w.chunks, data, more);
      if |data| != 0 {
        if encoding.Utf8? {
          out := out + data;
        } else {
          var address: nat := *;
          var result := Transcoding.ConvertOutput(encoding, data, address);
          assert |result| <= 4 * buffer.Length;
          out := out + result;
        }
      } else {
        Nothing(encoding);
      }
      w := w.(chunks := more);
    }

    method Flush()
      requires Valid()
      modifies this
      ensures Valid() && w == Flushed(old(w)) && bufsize == 0
    {
      FlushChunk(buffer[..bufsize]);
      bufsize := 0;
      w := w.(pending := []);
      assert buffer[..0] == [];
    }

    // memcpy to the end of the buffer
    method Append(data: seq<byte>)
      requires Valid() && bufsize + |data| <= buffer.Length
      modifies this`bufsize, this`w, buffer
      ensures Valid() && w == old(w).(pending := old(w).pending + data)
    {
      for i := 0 to |data|
        modifies buffer
        invariant buffer[..bufsize + i] == w.pending + data[..i]
      {
        buffer[bufsize + i] := data[i];
        assert data[..i + 1] == data[..i] + [data[i]];
      }
      bufsize := bufsize + |data|;
      assert data[..|data|] == data;
      w := w.(pending := w.pending + data);
    }

    method WriteDirect(data: seq<byte>)
      requires Valid()
      modifies this, buffer
      ensures Valid() && w == Direct(encoding, buffer.Length, old(w), data)
    {
      Flush();
      if |data| <= buffer.Length {
        assert [] + data == data;
        Append(data);
      } else if encoding.Utf8? {
        ghost var more := w.chunks + [data];
        LastConverted(encoding, w.chunks, data, more);
        out := out + data;
        w := w.(chunks := more);
      } else {
        var pos := SendChunks(data);
        assert [] + data[pos..] == data[pos..];
        Append(data[pos..]);
      }
    }

    // while (length > bufcapacity)
    method SendChunks(data: seq<byte>) returns (pos: nat)
      requires Valid() && bufsize == 0
      modifies this`out, this`w
      ensures Valid() && bufsize == 0 && pos <= |data| <= pos + buffer.Length
      ensures Progress(w.chunks, data[pos..]) == InChunks(buffer.Length, old(w).chunks, data)
    {
      ghost var goal := InChunks(buffer.Length, w.chunks, data);
      pos := 0;
      assert data[0..] == data;
      while |data| - pos > buffer.Length
        invariant Valid() && bufsize == 0 && pos <= |data|
        invariant InChunks(buffer.Length, w.chunks, data[pos..]) == goal
        decreases |data| - pos
      {
        var n := GetValidLength(data[pos..pos + buffer.Length]);
        ghost var more, rest := w.chunks + [data[pos..pos + n]], data[pos + n..];
        NextChunk(buffer.Length, w.chunks, data, pos, n);
        assert InChunks(buffer.Length, more, rest) == goal;
        FlushChunk(data[pos..pos + n]);
        pos := pos + n;
        assert w.chunks == more && data[pos..] == rest;
      }
    }

    /** write_buffer */
    method WriteBuffer(data: seq<byte>)
      requires Valid()
      modifies this, buffer
      ensures Valid() && w == After(encoding, buffer.Length, old(w), Buffer(data))
    {
      if bufsize + |data| <= buffer.Length {
        Append(data);
      } else {
        WriteDirect(data);
      }
    }

    /** write_string: fills the buffer, and goes back if that split a character. */
    method WriteString(data: seq<byte>)
      requires Valid()
      modifies this, buffer
      ensures Valid() && w == After(encoding, buffer.Length, old(w), CString(data))
    {
      var n := if |data| < buffer.Length - bufsize then |data| else buffer.Length - bufsize;
      if bufsize + n < buffer.Length {
        Append(data);
      } else {
        var v := GetValidLength(data[..n]);
        assert data[..n][..v] == data[..v];
        Append(data[..v]);
        WriteDirect(data[v..]);
      }
    }

    /** write(d0, ..., d5) */
    method WriteChars(data: seq<byte>)
      requires Valid() && 1 <= |data| <= 6
      modifies this, buffer
      ensures Valid() && w == After(encoding, buffer.Length, old(w), Chars(data))
    {
      if bufsize > buffer.Length - |data| { Flush(); }
      Append(data);
    }
  }

  /** Any sequence of writes, and the last flush. */
  method Save(e: Encoding, capacity: nat, calls: seq<Call>) returns (out: seq<byte>)
    requires 8 <= capacity && CallsOk(calls)
    ensures out == ConvertEach(e, Pieces(e, capacity, calls))
    ensures out == Convert(e, Join(Texts(calls))) <==> e.Utf8? || NoneStraddled(Pieces(e, capacity, calls))
  {
    OutputIsWhole(e, capacity, calls);
    var w := new BufferedWriter(e, capacity);
    for i := 0 to |calls|
      invariant w.Valid() && fresh(w) && fresh(w.buffer) && w.encoding == e && w.buffer.Length == capacity
      invariant w.w == AfterAll(e, capacity, calls[..i])
    {
      assert calls[..i + 1][..i] == calls[..i];
      match calls[i]
      case Buffer(text) => w.WriteBuffer(text);
      case CString(text) => w.WriteString(text);
      case Chars(text) => w.WriteChars(text);
    }
    assert calls[..|calls|] == calls;
    w.Flush();
    out := w.out;
  }

  lemma {:induction false} AsciiStays(d: seq<byte>)
    requires forall k :: 0 <= k < |d| ==> d[k] < 0x80
    ensures Convert(Latin1, d) == d
    decreases |d|
  {
    if d != [] {
      AsciiStays(d[1..]);
      assert Lead(d) == (1, [Low(d[0])]);
      var c: seq<Code> := [Low(d[0])];
      EmitSum(Latin1, c, Codes(d[1..]));
      OneUnit(d[0]);
    }
  }

  lemma OneUnit(b: byte)
    ensures Emit(Latin1, [Low(b)]) == [b]
  {
    var c: seq<Code> := [Low(b)];
    var u: seq<nat> := [b];
    assert c[1..] == [] && u[1..] == [];
    assert AllUnits(Latin1, c) == u + [] == u && Store(Latin1, u) == u + [];
  }

  lemma HalfCodes()
    ensures Convert(Latin1, [0xC3]) == [] && Convert(Latin1, [0xA9]) == [] && Convert(Latin1, [0xC3, 0xA9]) == [0xE9]
  {
    var d: seq<byte> := [0xC3, 0xA9];
    assert Lead(d) == (2, [Low(0xE9)]) && d[2..] == [];
    assert Codes(d) == [Low(0xE9)];
    OneUnit(0xE9);
  }

  lemma {:induction false} LettersBefore(letters: seq<byte>, d: seq<byte>)
    requires (forall k :: 0 <= k < |letters| ==> letters[k] < 0x80) && d != [] && !Cont(d[0])
    ensures Convert(Latin1, letters + d) == letters + Convert(Latin1, d)
  {
    AsciiStays(letters);
    NotBeforeLead(letters, d);
    ConvertCut(Latin1, letters, d);
  }

  // Two texts, the first of which fills the buffer.
  lemma {:induction false} TwoBuffers(e: Encoding, x: seq<byte>, y: seq<byte>, calls: seq<Call>)
    requires 8 <= |x| && 0 < |y| <= |x| && calls == [Buffer(x), Buffer(y)]
    ensures Join(Texts(calls)) == x + y && ConvertEach(e, Pieces(e, |x|, calls)) == Convert(e, x) + Convert(e, y)
  {
    var none: seq<seq<byte>>, first: seq<Call> := [], calls[..1];
    var one, two := none + [x], none + [x] + [y];
    assert first == [Buffer(x)] && first[..0] == [];
    assert AfterAll(e, |x|, first) == Progress([], x) by { assert [] + x == x; }
    assert AfterAll(e, |x|, calls) == Progress(one, y);
    JoinMore(none, x);
    JoinMore(one, y);
    assert Texts(calls) == two && [] + x == x;
    assert Pieces(e, |x|, calls) == two;
    LastConverted(e, none, x, one);
    LastConverted(e, one, y, two);
    assert [] + Convert(e, x) == Convert(e, x);
  }

  lemma {:induction false} WholeInLarge(e: Encoding, x: seq<byte>, y: seq<byte>, calls: seq<Call>)
    requires 8 <= |x| && 0 < |y| < |x| && calls == [Buffer(x), Buffer(y)]
    ensures ConvertEach(e, Pieces(e, 2 * |x|, calls)) == Convert(e, x + y)
  {
    TwoBuffers(e, x, y, calls);
    ShortTextArrives(e, 2 * |x|, calls);
  }

  /** Two texts through two writers: a buffer that the first fills converts them one by one,
      a larger one converts them as a whole. */
  method SaveTwo(e: Encoding, x: seq<byte>, y: seq<byte>) returns (small: seq<byte>, large: seq<byte>)
    requires 8 <= |x| && 0 < |y| < |x|
    ensures small == Convert(e, x) + Convert(e, y) && large == Convert(e, x + y)
  {
    var calls := [Buffer(x), Buffer(y)];
    TwoBuffers(e, x, y, calls);
    WholeInLarge(e, x, y, calls);
    small := Save(e, |x|, calls);
    large := Save(e, 2 * |x|, calls);
  }

  lemma {:induction false} HalfLost(letters: seq<byte>, x: seq<byte>, y: seq<byte>, d: seq<byte>)
    requires (forall k :: 0 <= k < |letters| ==> letters[k] < 0x80) && x != [] && !Cont(x[0]) && d == x + y
    requires Convert(Latin1, x) == [] && Convert(Latin1, y) == []
    ensures Convert(Latin1, letters + x) + Convert(Latin1, y) == letters
    ensures Convert(Latin1, (letters + x) + y) == letters + Convert(Latin1, d)
  {
    LettersBefore(letters, x);
    LettersBefore(letters, d);
    SumAssociates(letters, x, y);
    assert letters + [] == letters;
  }

  /** Seven letters and the first half of a character, then the second half: with a buffer
      of 8 bytes the character is lost, with one of 16 it is not. */
  method HalfCharacters(letters: seq<byte>) returns (small: seq<byte>, large: seq<byte>)
    requires |letters| == 7 && forall k :: 0 <= k < |letters| ==> letters[k] < 0x80
    ensures small == letters && large == letters + [0xE9]
  {
    HalfCodes();
    HalfLost(letters, [0xC3], [0xA9], [0xC3, 0xA9]);
    small, large := SaveTwo(Latin1, letters + [0xC3], [0xA9]);
  }
}
