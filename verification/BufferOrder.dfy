/** pugixml.cpp, document_buffer_order: nodes and attributes whose names or values
    still lie where the parser found them are compared by these pointers.  Edits
    set flags that take nodes, or a whole document, out of this; here it is proved
    that they always do when they have to. */
module BufferOrder {
  import opened Documents
  import DocumentOrder
  import ParseOrder
  import XmlSyntax
  import opened Bytes

  // A string: none, in the document buffer, or allocated.
  datatype Pointer = Null | InBuffer(pos: nat) | Allocated

  // A node or attribute with its flags: name allocated, value allocated, contents shared.
  datatype Entry = Entry(isAttribute: bool, name: Pointer, value: Pointer, nameFlag: bool, valueFlag: bool, shared: bool)

  // The entries of a document in document order, and the document's shared flag.
  datatype State = State(order: seq<Entry>, shared: bool)

  /** document_buffer_order; Null is the null pointer. */
  function Key(s: State, e: Entry): (p: Pointer) {
    if s.shared then Null
    else if e.isAttribute then
      if !e.nameFlag && !e.shared then e.name
      else if !e.valueFlag && !e.shared then e.value
      else Null
    else
      if e.name != Null && !e.nameFlag && !e.shared then e.name
      else if e.value != Null && !e.valueFlag && !e.shared then e.value
      else Null
  }

  // ---------------------------------------------------------------------
  // Edits.

  // What decides how a string is set: whether it is empty, whether it fits into the old
  // memory, and whether new memory can be had.
  datatype How = How(empty: bool, fits: bool, memory: bool)

  // strcpy_insitu
  function SetString(p: Pointer, flag: bool, shared: bool, how: How): (r: (Pointer, bool)) {
    if how.empty then (Null, false)
    else if p != Null && !shared && how.fits then (p, flag)
    else if how.memory then (Allocated, true)
    else (p, flag)
  }

  // node_copy_string within a document: the string of the copy, its flag, and whether the
  // two now share it.
  function CopyString(p: Pointer, flag: bool, how: How): (r: (Pointer, bool, bool)) {
    if p == Null then (Null, false, false)
    else if !flag then (p, false, true)
    else (SetString(Null, false, false, how).0, SetString(Null, false, false, how).1, false)
  }

  function Shares(e: Entry): bool {
    (e.name != Null && !e.nameFlag) || (e.value != Null && !e.valueFlag)
  }

  function CopyOf(e: Entry, how: How): (c: Entry) {
    var n, v := CopyString(e.name, e.nameFlag, how), CopyString(e.value, e.valueFlag, how);
    Entry(e.isAttribute, n.0, v.0, n.1, v.1, n.2 || v.2)
  }

  datatype Edit =
    | SetName(i: nat, how: How)
    | SetValue(i: nat, how: How)
    | Insert(at: nat, isAttribute: bool)                     // a new node or attribute
    | Remove(i: nat, n: nat)                                 // an attribute, or a node with all below it
    | CopyWithin(i: nat, n: nat, at: nat, hows: seq<How>)    // a node with all below it, or an attribute
    | CopyFrom(at: nat, copies: seq<Entry>)                  // from another document
    | Move(order: seq<Entry>)
    | AppendBuffer(order: seq<Entry>)

  predicate Fits(s: State, x: Edit) {
    match x
    case SetName(i, _) => i < |s.order|
    case SetValue(i, _) => i < |s.order|
    case Insert(at, _) => at <= |s.order|
    case Remove(i, n) => i + n <= |s.order|
    case CopyWithin(i, n, at, hows) => i + n <= |s.order| && at <= |s.order| && |hows| == n
    case CopyFrom(at, copies) => at <= |s.order| && forall k :: 0 <= k < |copies| ==> !copies[k].name.InBuffer? && !copies[k].value.InBuffer? && FlagsOk(copies[k])
    case Move(order) => forall k :: 0 <= k < |order| ==> FlagsOk(order[k])
    case AppendBuffer(order) => forall k :: 0 <= k < |order| ==> FlagsOk(order[k])
  }

  function Spliced(order: seq<Entry>, at: nat, more: seq<Entry>): (r: seq<Entry>)
    requires at <= |order|
    ensures |r| == |order| + |more|
    ensures forall k :: 0 <= k < at ==> r[k] == order[k]
    ensures forall k :: at <= k < at + |more| ==> r[k] == more[k - at]
    ensures forall k :: at + |more| <= k < |r| ==> r[k] == order[k - |more|]
  {
    order[..at] + more + order[at..]
  }

  function Copies(order: seq<Entry>, i: nat, hows: seq<How>): (r: seq<Entry>)
    requires i + |hows| <= |order|
  {
    seq(|hows|, k requires 0 <= k < |hows| => CopyOf(order[i + k], hows[k]))
  }

  function Flagged(order: seq<Entry>, i: nat, n: nat): (r: seq<Entry>)
    requires i + n <= |order|
  {
    seq(|order|, k requires 0 <= k < |order| =>
      if i <= k < i + n && Shares(order[k]) then order[k].(shared := true) else order[k])
  }

  function Apply(s: State, x: Edit): (r: State)
    requires Fits(s, x)
  {
    match x
    case SetName(i, how) =>
      var e := s.order[i];
      var p := SetString(e.name, e.nameFlag, e.shared, how);
      s.(order := s.order[i := e.(name := p.0, nameFlag := p.1)])
    case SetValue(i, how) =>
      var e := s.order[i];
      var p := SetString(e.value, e.valueFlag, e.shared, how);
      s.(order := s.order[i := e.(value := p.0, valueFlag := p.1)])
    case Insert(at, isAttribute) => s.(order := Spliced(s.order, at, [Entry(isAttribute, Null, Null, false, false, false)]))
    case Remove(i, n) => s.(order := s.order[..i] + s.order[i + n..])
    case CopyWithin(i, n, at, hows) => s.(order := Spliced(Flagged(s.order, i, n), at, Copies(s.order, i, hows)))
    case CopyFrom(at, copies) => s.(order := Spliced(s.order, at, copies))
    case Move(order) => State(order, true)
    case AppendBuffer(order) => State(order, true)
  }

  // ---------------------------------------------------------------------
  // What every edit keeps.

  predicate FlagsOk(e: Entry) {
    (e.nameFlag <==> e.name == Allocated) && (e.valueFlag <==> e.value == Allocated)
  }

  predicate Less(p: Pointer, q: Pointer) {
    p.InBuffer? && q.InBuffer? ==> p.pos < q.pos
  }

  // Whatever of e lies in the buffer lies in front of all of f.
  predicate InFront(e: Entry, f: Entry) {
    !e.shared && !f.shared ==> Less(e.name, f.name) && Less(e.name, f.value) && Less(e.value, f.name) && Less(e.value, f.value)
  }

  ghost predicate Ok(s: State) {
    && (forall i :: 0 <= i < |s.order| ==> FlagsOk(s.order[i]))
    && (!s.shared ==> forall i, j :: 0 <= i < j < |s.order| ==> InFront(s.order[i], s.order[j]))
  }

  // An entry that has nothing unshared in the buffer.
  predicate Outside(e: Entry) {
    e.shared || (!e.name.InBuffer? && !e.value.InBuffer?)
  }

  lemma {:induction false} SplicedOk(s: State, at: nat, more: seq<Entry>)
    requires Ok(s) && at <= |s.order| && forall k :: 0 <= k < |more| ==> Outside(more[k]) && FlagsOk(more[k])
    ensures Ok(s.(order := Spliced(s.order, at, more)))
  {
    var t := Spliced(s.order, at, more);
    if !s.shared {
      forall i, j | 0 <= i < j < |t| ensures InFront(t[i], t[j]) {
        if (i < at || at + |more| <= i) && (j < at || at + |more| <= j) {
          var i0, j0 := if i < at then i else i - |more|, if j < at then j else j - |more|;
          assert InFront(s.order[i0], s.order[j0]);
        } else {
          assert Outside(t[i]) || Outside(t[j]);
        }
      }
    }
  }

  lemma {:induction false} ReplacedOk(s: State, i: nat, e: Entry)
    requires Ok(s) && i < |s.order| && FlagsOk(e)
    requires e.shared == s.order[i].shared && (e.name == s.order[i].name || !e.name.InBuffer?) && (e.value == s.order[i].value || !e.value.InBuffer?)
    ensures Ok(s.(order := s.order[i := e]))
  {
    var t := s.order[i := e];
    if !s.shared {
      forall j, k | 0 <= j < k < |t| ensures InFront(t[j], t[k]) { assert InFront(s.order[j], s.order[k]); }
    }
  }

  lemma {:induction false} FlaggedOk(s: State, i: nat, n: nat)
    requires Ok(s) && i + n <= |s.order|
    ensures Ok(s.(order := Flagged(s.order, i, n)))
  {
    var t := Flagged(s.order, i, n);
    if !s.shared {
      forall j, k | 0 <= j < k < |t| ensures InFront(t[j], t[k]) { assert InFront(s.order[j], s.order[k]); }
    }
  }

  lemma {:induction false} RemovedOk(s: State, i: nat, n: nat)
    requires Ok(s) && i + n <= |s.order|
    ensures Ok(s.(order := s.order[..i] + s.order[i + n..]))
  {
    var t := s.order[..i] + s.order[i + n..];
    if !s.shared {
      forall j, k | 0 <= j < k < |t| ensures InFront(t[j], t[k]) {
        var j0, k0 := if j < i then j else j + n, if k < i then k else k + n;
        assert InFront(s.order[j0], s.order[k0]);
      }
    }
  }

  /** Every edit keeps the order or gives up on it. */
  lemma {:induction false} EditKeepsOrder(s: State, x: Edit)
    requires Ok(s) && Fits(s, x)
    ensures Ok(Apply(s, x))
  {
    match x
    case SetName(i, how) =>
      var e := s.order[i];
      var p := SetString(e.name, e.nameFlag, e.shared, how);
      ReplacedOk(s, i, e.(name := p.0, nameFlag := p.1));
    case SetValue(i, how) =>
      var e := s.order[i];
      var p := SetString(e.value, e.valueFlag, e.shared, how);
      ReplacedOk(s, i, e.(value := p.0, valueFlag := p.1));
    case Insert(at, isAttribute) => SplicedOk(s, at, [Entry(isAttribute, Null, Null, false, false, false)]);
    case Remove(i, n) => RemovedOk(s, i, n);
    case CopyWithin(i, n, at, hows) =>
      FlaggedOk(s, i, n);
      SplicedOk(s.(order := Flagged(s.order, i, n)), at, Copies(s.order, i, hows));
    case CopyFrom(at, copies) => SplicedOk(s, at, copies);
    case Move(_) =>
    case AppendBuffer(_) =>
  }

  // ---------------------------------------------------------------------
  // Whole runs: a document is loaded and edited.

  // The root, which has neither name nor value, and what the parser created.
  function Loaded(marks: seq<ParseOrder.Mark>): (s: State) {
    State([Entry(false, Null, Null, false, false, false)] + seq(|marks|, i requires 0 <= i < |marks| => Created(marks[i])), false)
  }

  function Created(m: ParseOrder.Mark): Entry {
    match m.item
    case ElementItem(_) => Entry(false, InBuffer(m.at), Null, false, false, false)
    case AttributeItem(_) => Entry(true, InBuffer(m.at), InBuffer(m.valueAt), false, false, false)
    case TextItem(_) => Entry(false, Null, InBuffer(m.at), false, false, false)
  }

  lemma {:induction false} LoadedOk(marks: seq<ParseOrder.Mark>)
    requires ParseOrder.Increasing(marks)
    ensures Ok(Loaded(marks))
  {
    var order := Loaded(marks).order;
    forall i, j | 0 <= i < j < |order| ensures InFront(order[i], order[j]) {
      if 0 < i { assert marks[i - 1].valueAt < marks[j - 1].at; }
    }
  }

  ghost predicate AllFit(s: State, edits: seq<Edit>)
    decreases |edits|
  {
    edits != [] ==> Fits(s, edits[0]) && AllFit(Apply(s, edits[0]), edits[1..])
  }

  ghost function After(s: State, edits: seq<Edit>): State
    requires AllFit(s, edits)
    decreases |edits|
  {
    if edits == [] then s else After(Apply(s, edits[0]), edits[1..])
  }

  lemma {:induction false} EditsKeepOrder(s: State, edits: seq<Edit>)
    requires Ok(s) && AllFit(s, edits)
    ensures Ok(After(s, edits))
    decreases |edits|
  {
    if edits != [] {
      EditKeepsOrder(s, edits[0]);
      EditsKeepOrder(Apply(s, edits[0]), edits[1..]);
    }
  }

  lemma {:induction false} KeysInOrder(s: State, i: nat, j: nat)
    requires Ok(s) && i < j < |s.order|
    ensures var p, q := Key(s, s.order[i]), Key(s, s.order[j]); p != Null && q != Null ==> p.InBuffer? && q.InBuffer? && p.pos < q.pos
  {
    assert !s.shared ==> InFront(s.order[i], s.order[j]);
  }

  /** After loading a document from any buffer and any run of edits, two different nodes or
      attributes that both have a pointer to compare are compared as the tree orders them. */
  lemma {:induction false} BufferOrderAgrees(b: seq<byte>, endch: byte, start: nat, edits: seq<Edit>, i: nat, j: nat)
    requires var s0 := Loaded(ParseOrder.Trace(b, endch, XmlSyntax.At(XmlSyntax.Content, start, [XmlSyntax.DOCUMENT])));
             AllFit(s0, edits) && i < |After(s0, edits).order| && j < |After(s0, edits).order| && i != j
    ensures var s0 := Loaded(ParseOrder.Trace(b, endch, XmlSyntax.At(XmlSyntax.Content, start, [XmlSyntax.DOCUMENT])));
            var s := After(s0, edits);
            var p, q := Key(s, s.order[i]), Key(s, s.order[j]);
            p != Null && q != Null ==> p.InBuffer? && q.InBuffer? && (p.pos < q.pos <==> i < j)
  {
    var x := XmlSyntax.At(XmlSyntax.Content, start, [XmlSyntax.DOCUMENT]);
    var marks := ParseOrder.Trace(b, endch, x);
    ParseOrder.PositionsIncrease(b, endch, x);
    LoadedOk(marks);
    EditsKeepOrder(Loaded(marks), edits);
    var s := After(Loaded(marks), edits);
    if i < j { KeysInOrder(s, i, j); } else { KeysInOrder(s, j, i); }
  }

  // The entries belong to the nodes and attributes of the document d.
  ghost predicate Describes(s: State, d: Doc) {
    |s.order| == |d| && forall i :: 0 <= i < |d| ==> (s.order[i].isAttribute <==> IsAttr(d, i))
  }

  // Pointers outside the buffer are never compared.
  function Position(p: Pointer): nat {
    if p.InBuffer? then p.pos else 0
  }

  /** document_order_comparator, with its shortcut. */
  method DocumentOrderComparator(d: Doc, s: State, l: int, r: int) returns (b: bool)
    requires WellFormed(d) && Describes(s, d) && Ok(s) && IsNode(d, l) && IsNode(d, r)
    ensures l != r ==> b == (l < r)
  {
    var lo, ro := Key(s, s.order[l]), Key(s, s.order[r]);
    if l < r { KeysInOrder(s, l, r); } else if r < l { KeysInOrder(s, r, l); }
    if lo != Null && ro != Null { return Position(lo) < Position(ro); }
    b := DocumentOrder.DocumentLess(d, l, r);
  }
}
