/** pugixml.cpp, xml_allocator (64-bit build, without compact mode): blocks are
    carved off the last page of a list, pages are given back when their last
    block is, and strings carry a 4-byte header that leads back to their page.

    A page is known by its address; the linked list of pages is the sequence
    list, from the sentinel page inside the document to the root. */
module Allocators {

  const PAGE_HEADER := 40                 // sizeof(xml_memory_page)
  const PAGE_SIZE := 32768                // xml_memory_page_size
  const THRESHOLD := PAGE_SIZE / 4
  const ALIGNMENT := 8                    // xml_memory_block_alignment
  const MAX_ENCODED := 0x1_0000 * ALIGNMENT
  const STRING_HEADER := 4

  datatype Page = Page(busySize: nat, freedSize: nat, dataSize: nat)

  // offset counts from the data of the page.
  datatype Block = Block(page: int, offset: nat, size: nat)

  function Address(b: Block): int {
    b.page + PAGE_HEADER + b.offset
  }

  // ---------------------------------------------------------------------
  // Live blocks of a page.

  function LiveSize(live: seq<Block>, page: int): (n: nat) {
    if live == [] then 0
    else LiveSize(live[..|live| - 1], page) + if live[|live| - 1].page == page then live[|live| - 1].size else 0
  }

  function Without(live: seq<Block>, i: nat): seq<Block>
    requires i < |live|
  {
    live[..i] + live[i + 1..]
  }

  lemma {:induction false} LiveSizeSum(a: seq<Block>, b: seq<Block>, page: int)
    ensures LiveSize(a + b, page) == LiveSize(a, page) + LiveSize(b, page)
    decreases |b|
  {
    if b == [] {
      assert a + b == a;
    } else {
      assert (a + b)[..|a + b| - 1] == a + b[..|b| - 1];
      LiveSizeSum(a, b[..|b| - 1], page);
    }
  }

  lemma {:induction false} LiveSizeOne(x: Block, page: int)
    ensures LiveSize([x], page) == if x.page == page then x.size else 0
  {
    assert [x][..0] == [];
  }

  lemma {:induction false} LiveSizeWithout(live: seq<Block>, i: nat, page: int)
    requires i < |live|
    ensures LiveSize(live, page) == LiveSize(Without(live, i), page) + if live[i].page == page then live[i].size else 0
  {
    assert live == live[..i] + [live[i]] + live[i + 1..];
    LiveSizeSum(live[..i] + [live[i]], live[i + 1..], page);
    LiveSizeSum(live[..i], [live[i]], page);
    LiveSizeSum(live[..i], live[i + 1..], page);
    LiveSizeOne(live[i], page);
  }

  // A page has live bytes exactly when a live block is in it.
  lemma {:induction false} LiveSizeZero(live: seq<Block>, page: int)
    requires forall i :: 0 <= i < |live| ==> 0 < live[i].size
    ensures LiveSize(live, page) == 0 <==> forall i :: 0 <= i < |live| ==> live[i].page != page
    decreases |live|
  {
    if live != [] {
      var rest := live[..|live| - 1];
      LiveSizeZero(rest, page);
      assert forall i :: 0 <= i < |rest| ==> rest[i] == live[i];
    }
  }

  ghost predicate DisjointBlocks(a: Block, b: Block) {
    a.page == b.page ==> a.offset + a.size <= b.offset || b.offset + b.size <= a.offset
  }

  // ---------------------------------------------------------------------
  // The header of a string: offset and size in units of the alignment, in 16 bits.

  datatype StringHeader = StringHeader(pageOffset: nat, fullSize: nat)

  function EncodeHeader(offset: nat, size: nat): (h: StringHeader)
  {
    StringHeader(offset / ALIGNMENT % 0x1_0000, if size < MAX_ENCODED then size / ALIGNMENT % 0x1_0000 else 0)
  }

  function FullSize(length: nat): (n: nat)
    ensures n % ALIGNMENT == 0 && STRING_HEADER + length <= n < STRING_HEADER + length + ALIGNMENT && 0 < n
  {
    (STRING_HEADER + length + ALIGNMENT - 1) / ALIGNMENT * ALIGNMENT
  }

  // ---------------------------------------------------------------------
  // The allocator as a value: its fields and the blocks that are live.

  datatype Heap = Heap(list: seq<int>, pages: map<int, Page>, busySize: nat, live: seq<Block>)

  function RootOf(h: Heap): int
    requires |h.list| > 0
  {
    h.list[|h.list| - 1]
  }

  // The size in use: that of the root is kept in the allocator.
  function Busy(h: Heap, page: int): nat
    requires |h.list| > 0 && page in h.pages
  {
    if page == RootOf(h) then h.busySize else h.pages[page].busySize
  }

  ghost predicate ListOk(h: Heap) {
    && 0 < |h.list|
    && (forall i, j :: 0 <= i < j < |h.list| ==> h.list[i] != h.list[j])
    && (forall p :: p in h.list <==> p in h.pages)
    && (|h.list| == 1 ==> h.busySize == PAGE_SIZE && h.live == [])
  }

  // What holds of every page but the sentinel: live and freed bytes make up the
  // bytes in use, and only the root may be without a live block, and is then reset.
  ghost predicate PageOk(h: Heap, p: int)
    requires |h.list| > 0 && p in h.pages
  {
    && LiveSize(h.live, p) + h.pages[p].freedSize == Busy(h, p) <= h.pages[p].dataSize
    && Busy(h, p) % ALIGNMENT == 0
    && (p != RootOf(h) || 0 < h.busySize ==> h.pages[p].freedSize < Busy(h, p))
    && (h.pages[p].dataSize == PAGE_SIZE || (THRESHOLD < h.pages[p].dataSize == h.pages[p].busySize && p != RootOf(h)))
  }

  ghost predicate PagesOk(h: Heap)
    requires |h.list| > 0
  {
    forall p :: p in h.pages && p != h.list[0] ==> PageOk(h, p)
  }

  ghost predicate BlockOk(h: Heap, b: Block)
    requires |h.list| > 0
  {
    && b.page in h.pages && b.page != h.list[0]
    && 0 < b.size && b.offset % ALIGNMENT == 0 && b.offset + b.size <= Busy(h, b.page)
    && (h.pages[b.page].dataSize == PAGE_SIZE || (b.offset == 0 && b.size == h.pages[b.page].dataSize))
  }

  ghost predicate BlocksOk(h: Heap)
    requires |h.list| > 0
  {
    && (forall i :: 0 <= i < |h.live| ==> BlockOk(h, h.live[i]))
    && (forall i, j :: 0 <= i < j < |h.live| ==> DisjointBlocks(h.live[i], h.live[j]))
  }

  predicate ApartFrom(p: int, pSize: nat, q: int, qSize: nat) {
    p + PAGE_HEADER + pSize <= q || q + PAGE_HEADER + qSize <= p
  }

  ghost predicate PagesApart(h: Heap) {
    forall p, q :: p in h.pages && q in h.pages && p != q ==> ApartFrom(p, h.pages[p].dataSize, q, h.pages[q].dataSize)
  }

  ghost predicate HeapOk(h: Heap) {
    ListOk(h) && PagesOk(h) && BlocksOk(h) && PagesApart(h)
  }

  // What the memory manager promises of a new page.
  ghost predicate FreshAt(h: Heap, a: int, dataSize: nat) {
    a !in h.pages && forall p :: p in h.pages ==> ApartFrom(a, dataSize, p, h.pages[p].dataSize)
  }

  /** Live blocks do not overlap in memory, wherever they are. */
  lemma {:induction false} LiveBlocksDisjoint(h: Heap, i: nat, j: nat)
    requires HeapOk(h) && i < j < |h.live|
    ensures var x, y := h.live[i], h.live[j]; Address(x) + x.size <= Address(y) || Address(y) + y.size <= Address(x)
  {
    var x, y := h.live[i], h.live[j];
    assert BlockOk(h, x) && BlockOk(h, y);
    assert PageOk(h, x.page) && PageOk(h, y.page);
    assert DisjointBlocks(x, y);
    if x.page != y.page { assert ApartFrom(x.page, h.pages[x.page].dataSize, y.page, h.pages[y.page].dataSize); }
  }

  // ---------------------------------------------------------------------
  // Allocation.

  function InRoot(h: Heap, size: nat): Heap
    requires |h.list| > 0
  {
    h.(busySize := h.busySize + size, live := h.live + [Block(RootOf(h), h.busySize, size)])
  }

  lemma {:induction false} LiveMore(h: Heap, x: Block, p: int)
    ensures LiveSize(h.live + [x], p) == LiveSize(h.live, p) + if x.page == p then x.size else 0
  {
    LiveSizeSum(h.live, [x], p);
    LiveSizeOne(x, p);
  }

  lemma {:induction false} InRootOk(h: Heap, size: nat)
    requires HeapOk(h) && 0 < size && size % ALIGNMENT == 0 && h.busySize + size <= PAGE_SIZE
    ensures HeapOk(InRoot(h, size))
  {
    var h', x := InRoot(h, size), Block(RootOf(h), h.busySize, size);
    assert 1 < |h.list|;
    assert PageOk(h, RootOf(h));
    forall p | p in h'.pages && p != h'.list[0] ensures PageOk(h', p) {
      assert PageOk(h, p);
      LiveMore(h, x, p);
    }
    forall i | 0 <= i < |h'.live| ensures BlockOk(h', h'.live[i]) {
      if i < |h.live| { assert BlockOk(h, h.live[i]); }
    }
    forall i, j | 0 <= i < j < |h'.live| ensures DisjointBlocks(h'.live[i], h'.live[j]) {
      assert BlockOk(h, h.live[i]);
      if j < |h.live| { assert DisjointBlocks(h.live[i], h.live[j]); }
    }
  }

  function NewRoot(h: Heap, size: nat, a: int): Heap
    requires |h.list| > 0 && RootOf(h) in h.pages
  {
    Heap(h.list + [a], h.pages[RootOf(h) := h.pages[RootOf(h)].(busySize := h.busySize)][a := Page(0, 0, PAGE_SIZE)],
         size, h.live + [Block(a, 0, size)])
  }

  function OwnPage(h: Heap, size: nat, a: int): Heap
    requires |h.list| > 0
  {
    Heap(h.list[..|h.list| - 1] + [a, RootOf(h)], h.pages[a := Page(size, 0, size)], h.busySize, h.live + [Block(a, 0, size)])
  }

  // A new page with one block in it; the others keep what they had.
  ghost predicate PageAdded(h: Heap, h': Heap, size: nat, a: int, dataSize: nat) {
    && 0 < |h.list| && 0 < |h'.list| && h'.list[0] == h.list[0] && a !in h.pages
    && (forall p :: p in h'.pages <==> p in h.pages || p == a)
    && (forall p :: p in h.pages && p in h'.pages ==>
          Busy(h', p) == Busy(h, p) && h'.pages[p].freedSize == h.pages[p].freedSize && h'.pages[p].dataSize == h.pages[p].dataSize)
    && a in h'.pages && Busy(h', a) == size <= dataSize && h'.pages[a].freedSize == 0 && h'.pages[a].dataSize == dataSize
    && h'.live == h.live + [Block(a, 0, size)]
  }

  lemma {:induction false} AddedBlocks(h: Heap, h': Heap, size: nat, a: int, dataSize: nat)
    requires HeapOk(h) && PageAdded(h, h', size, a, dataSize) && 0 < size && FreshAt(h, a, dataSize) && a != h.list[0]
    requires dataSize == PAGE_SIZE || dataSize == size
    ensures BlocksOk(h') && PagesApart(h')
  {
    forall i | 0 <= i < |h'.live| ensures BlockOk(h', h'.live[i]) {
      if i < |h.live| { assert BlockOk(h, h.live[i]); }
    }
    forall i, j | 0 <= i < j < |h'.live| ensures DisjointBlocks(h'.live[i], h'.live[j]) {
      assert BlockOk(h, h.live[i]);
      if j < |h.live| { assert DisjointBlocks(h.live[i], h.live[j]); }
    }
  }

  lemma {:induction false} AddedLive(h: Heap, h': Heap, size: nat, a: int, dataSize: nat, p: int)
    requires HeapOk(h) && PageAdded(h, h', size, a, dataSize) && p in h'.pages
    ensures LiveSize(h'.live, p) == if p == a then size else LiveSize(h.live, p)
  {
    LiveMore(h, Block(a, 0, size), p);
    if p == a {
      forall i | 0 <= i < |h.live| ensures 0 < h.live[i].size && h.live[i].page != a { assert BlockOk(h, h.live[i]); }
      LiveSizeZero(h.live, a);
    }
  }

  lemma {:induction false} NewRootOk(h: Heap, size: nat, a: int)
    requires HeapOk(h) && 0 < size <= THRESHOLD && size % ALIGNMENT == 0 && PAGE_SIZE < h.busySize + size && FreshAt(h, a, PAGE_SIZE)
    ensures HeapOk(NewRoot(h, size, a))
  {
    var h' := NewRoot(h, size, a);
    assert RootOf(h') == a;
    assert forall p :: p in h'.list <==> p in h.list || p == a;
    assert PageAdded(h, h', size, a, PAGE_SIZE);
    AddedBlocks(h, h', size, a, PAGE_SIZE);
    forall p | p in h'.pages && p != h'.list[0] ensures PageOk(h', p) {
      AddedLive(h, h', size, a, PAGE_SIZE, p);
      if p != a { assert PageOk(h, p); }
    }
  }

  lemma {:induction false} OwnPageOk(h: Heap, size: nat, a: int)
    requires HeapOk(h) && 1 < |h.list| && THRESHOLD < size && size % ALIGNMENT == 0 && FreshAt(h, a, size)
    ensures HeapOk(OwnPage(h, size, a))
  {
    var h' := OwnPage(h, size, a);
    var n := |h.list| - 1;
    assert RootOf(h') == RootOf(h) && h.list == h.list[..n] + [RootOf(h)];
    assert forall p :: p in h'.list <==> p in h.list || p == a;
    OwnPageList(h, size, a);
    assert PageAdded(h, h', size, a, size);
    AddedBlocks(h, h', size, a, size);
    forall p | p in h'.pages && p != h'.list[0] ensures PageOk(h', p) {
      AddedLive(h, h', size, a, size, p);
      if p != a { assert PageOk(h, p); }
    }
  }

  lemma {:induction false} OwnPageList(h: Heap, size: nat, a: int)
    requires ListOk(h) && 1 < |h.list| && a !in h.pages
    ensures var l := OwnPage(h, size, a).list; forall i, j :: 0 <= i < j < |l| ==> l[i] != l[j]
  {
    var l := OwnPage(h, size, a).list;
    var n := |h.list| - 1;
    forall i, j | 0 <= i < j < |l| ensures l[i] != l[j] {
      if i < n { assert l[i] == h.list[i] && h.list[i] in h.list; }
    }
  }

  // ---------------------------------------------------------------------
  // Deallocation.

  function IndexOf(list: seq<int>, p: int): (k: nat)
    requires p in list
    ensures k < |list| && list[k] == p
  {
    if list[0] == p then 0 else 1 + IndexOf(list[1..], p)
  }

  // The list without page p.
  function Unlinked(list: seq<int>, p: int): seq<int>
    requires p in list
  {
    list[..IndexOf(list, p)] + list[IndexOf(list, p) + 1..]
  }

  function Freed(h: Heap, i: nat): Heap
    requires |h.list| > 0 && i < |h.live| && h.live[i].page in h.pages && h.live[i].page in h.list
  {
    var b := h.live[i];
    var freed := h.pages[b.page].freedSize + b.size;
    var busy := Busy(h, b.page);
    var live := Without(h.live, i);
    if freed != busy then h.(pages := h.pages[b.page := Page(busy, freed, h.pages[b.page].dataSize)], live := live)
    else if b.page == RootOf(h) then h.(pages := h.pages[b.page := Page(0, 0, h.pages[b.page].dataSize)], busySize := 0, live := live)
    else Heap(Unlinked(h.list, b.page), h.pages - {b.page}, h.busySize, live)
  }

  lemma {:induction false} WithoutMembers(h: Heap, i: nat, j: nat)
    requires i < |h.live| && j < |Without(h.live, i)|
    ensures Without(h.live, i)[j] == h.live[if j < i then j else j + 1]
  {
  }

  // The last block of a page: freeing it leaves no live block there.
  lemma {:induction false} LastBlock(h: Heap, i: nat)
    requires HeapOk(h) && i < |h.live| && h.live[i].page in h.pages
    ensures var p := h.live[i].page;
            h.pages[p].freedSize + h.live[i].size <= Busy(h, p)
            && (h.pages[p].freedSize + h.live[i].size == Busy(h, p) <==> forall j :: 0 <= j < |h.live| && j != i ==> h.live[j].page != p)
  {
    var p := h.live[i].page;
    assert BlockOk(h, h.live[i]) && PageOk(h, p);
    LiveSizeWithout(h.live, i, p);
    var w := Without(h.live, i);
    forall j | 0 <= j < |w| ensures 0 < w[j].size { WithoutMembers(h, i, j); assert BlockOk(h, h.live[if j < i then j else j + 1]); }
    LiveSizeZero(w, p);
    if forall j :: 0 <= j < |w| ==> w[j].page != p {
      forall j | 0 <= j < |h.live| && j != i ensures h.live[j].page != p { WithoutMembers(h, i, if j < i then j else j - 1); }
    }
    if forall j :: 0 <= j < |h.live| && j != i ==> h.live[j].page != p {
      forall j | 0 <= j < |w| ensures w[j].page != p { WithoutMembers(h, i, j); }
    }
  }

  // What freeing a block leaves alone.
  ghost predicate PageFreed(h: Heap, h': Heap, i: nat) {
    && 0 < |h.list| && 0 < |h'.list| && h'.list[0] == h.list[0] && i < |h.live| && h.live[i].page in h.pages
    && RootOf(h') == RootOf(h) && h'.live == Without(h.live, i)
    && (forall q :: q in h'.pages ==> q in h.pages && h'.pages[q].dataSize == h.pages[q].dataSize)
    && (forall q :: q in h.pages && q != h.live[i].page ==> q in h'.pages && h'.pages[q] == h.pages[q] && Busy(h', q) == Busy(h, q))
  }

  lemma {:induction false} FreedBlocks(h: Heap, h': Heap, i: nat)
    requires HeapOk(h) && PageFreed(h, h', i)
    requires forall j :: 0 <= j < |h.live| && j != i && h.live[j].page == h.live[i].page ==>
               h.live[i].page in h'.pages && Busy(h', h.live[i].page) == Busy(h, h.live[i].page)
    ensures BlocksOk(h') && PagesApart(h')
  {
    forall j | 0 <= j < |h'.live| ensures BlockOk(h', h'.live[j]) {
      WithoutMembers(h, i, j);
      assert BlockOk(h, h.live[if j < i then j else j + 1]);
    }
    forall j, k | 0 <= j < k < |h'.live| ensures DisjointBlocks(h'.live[j], h'.live[k]) {
      WithoutMembers(h, i, j);
      WithoutMembers(h, i, k);
      assert DisjointBlocks(h.live[if j < i then j else j + 1], h.live[if k < i then k else k + 1]);
    }
  }

  lemma {:induction false} FreedPages(h: Heap, h': Heap, i: nat, q: int)
    requires HeapOk(h) && PageFreed(h, h', i) && q in h'.pages && q != h'.list[0] && q != h.live[i].page
    ensures PageOk(h', q)
  {
    assert PageOk(h, q);
    LiveSizeWithout(h.live, i, q);
  }

  lemma {:induction false} UnlinkedList(h: Heap, p: int)
    requires ListOk(h) && p in h.list && p != h.list[0] && p != RootOf(h)
    ensures var l := Unlinked(h.list, p);
            && 1 < |l| && l[0] == h.list[0] && l[|l| - 1] == RootOf(h)
            && (forall i, j :: 0 <= i < j < |l| ==> l[i] != l[j])
            && (forall q :: q in l <==> q in h.list && q != p)
  {
    UnlinkedMembers(h.list, p);
  }

  lemma {:induction false} UnlinkedMembers(list: seq<int>, p: int)
    requires p in list && forall i, j :: 0 <= i < j < |list| ==> list[i] != list[j]
    ensures var l := Unlinked(list, p); var k := IndexOf(list, p);
            && |l| == |list| - 1 && (forall i :: 0 <= i < |l| ==> l[i] == list[if i < k then i else i + 1])
            && (forall q :: q in l <==> q in list && q != p)
  {
    var k := IndexOf(list, p);
    var l := Unlinked(list, p);
    forall q ensures q in l <==> q in list && q != p {
      if q in list && q != p {
        var j := IndexOf(list, q);
        assert l[if j < k then j else j - 1] == q;
      }
      if q in l {
        var j := IndexOf(l, q);
        assert list[if j < k then j else j + 1] == q;
      }
    }
  }

  // The page keeps other live blocks.
  lemma {:induction false} FreedInPage(h: Heap, i: nat)
    requires HeapOk(h) && i < |h.live| && h.live[i].page in h.pages && h.live[i].page in h.list
    requires h.pages[h.live[i].page].freedSize + h.live[i].size != Busy(h, h.live[i].page)
    ensures HeapOk(Freed(h, i))
  {
    var b, h' := h.live[i], Freed(h, i);
    assert BlockOk(h, b) && PageOk(h, b.page);
    LastBlock(h, i);
    LiveSizeWithout(h.live, i, b.page);
    assert PageFreed(h, h', i);
    FreedBlocks(h, h', i);
    forall q | q in h'.pages && q != h'.list[0] ensures PageOk(h', q) {
      if q != b.page { FreedPages(h, h', i, q); }
    }
  }

  // The root page becomes empty and is reset.
  lemma {:induction false} FreedRoot(h: Heap, i: nat)
    requires HeapOk(h) && i < |h.live| && h.live[i].page in h.pages && h.live[i].page in h.list && h.live[i].page == RootOf(h)
    requires h.pages[h.live[i].page].freedSize + h.live[i].size == Busy(h, h.live[i].page)
    ensures HeapOk(Freed(h, i))
  {
    var b, h' := h.live[i], Freed(h, i);
    assert BlockOk(h, b) && PageOk(h, b.page);
    LastBlock(h, i);
    LiveSizeWithout(h.live, i, b.page);
    assert PageFreed(h, h', i);
    FreedBlocks(h, h', i);
    forall q | q in h'.pages && q != h'.list[0] ensures PageOk(h', q) {
      if q != b.page { FreedPages(h, h', i, q); }
    }
  }

  // Another page becomes empty and is given back.
  lemma {:induction false} FreedPage(h: Heap, i: nat)
    requires HeapOk(h) && i < |h.live| && h.live[i].page in h.pages && h.live[i].page in h.list && h.live[i].page != RootOf(h)
    requires h.pages[h.live[i].page].freedSize + h.live[i].size == Busy(h, h.live[i].page)
    ensures HeapOk(Freed(h, i))
  {
    var b, h' := h.live[i], Freed(h, i);
    assert BlockOk(h, b);
    LastBlock(h, i);
    UnlinkedList(h, b.page);
    assert PageFreed(h, h', i);
    FreedBlocks(h, h', i);
    forall q | q in h'.pages && q != h'.list[0] ensures PageOk(h', q) {
      FreedPages(h, h', i, q);
    }
  }

  /** Freeing a block: a page goes exactly when its last block goes, except the root. */
  lemma {:induction false} FreedOk(h: Heap, i: nat)
    requires HeapOk(h) && i < |h.live|
    ensures h.live[i].page in h.pages && h.live[i].page in h.list && HeapOk(Freed(h, i))
    ensures var p := h.live[i].page;
            p in Freed(h, i).pages <==> p == RootOf(h) || exists j :: 0 <= j < |h.live| && j != i && h.live[j].page == p
  {
    assert BlockOk(h, h.live[i]);
    LastBlock(h, i);
    if h.pages[h.live[i].page].freedSize + h.live[i].size != Busy(h, h.live[i].page) {
      FreedInPage(h, i);
    } else if h.live[i].page == RootOf(h) {
      FreedRoot(h, i);
    } else {
      FreedPage(h, i);
    }
  }

  // The assertions of deallocate_memory, and its three outcomes.
  lemma {:induction false} FreedSizes(h: Heap, i: nat)
    requires HeapOk(h) && i < |h.live| && h.live[i].page in h.pages && h.live[i].page in h.list
    ensures var b, h' := h.live[i], Freed(h, i);
            var p := Page(Busy(h, b.page), h.pages[b.page].freedSize + b.size, h.pages[b.page].dataSize);
            && b.offset < p.busySize && p.freedSize <= p.busySize
            && (p.freedSize != p.busySize ==> h' == Heap(h.list, h.pages[b.page := p], h.busySize, Without(h.live, i)))
            && (p.freedSize == p.busySize && b.page == RootOf(h) ==>
                  h' == Heap(h.list, h.pages[b.page := Page(0, 0, p.dataSize)], 0, Without(h.live, i)))
            && (p.freedSize == p.busySize && b.page != RootOf(h) ==>
                  h' == Heap(Unlinked(h.list, b.page), h.pages - {b.page}, h.busySize, Without(h.live, i)))
  {
    assert BlockOk(h, h.live[i]);
    LastBlock(h, i);
  }

  // Every page but the sentinel and the root holds a live block.
  lemma {:induction false} PagesInUse(h: Heap, p: int) returns (i: nat)
    requires HeapOk(h) && p in h.pages && p != h.list[0] && p != RootOf(h)
    ensures i < |h.live| && h.live[i].page == p
  {
    assert PageOk(h, p);
    forall j | 0 <= j < |h.live| ensures 0 < h.live[j].size { assert BlockOk(h, h.live[j]); }
    LiveSizeZero(h.live, p);
    i :| i < |h.live| && h.live[i].page == p;
  }

  // ---------------------------------------------------------------------
  // String headers.

  /** The 16-bit header of a string leads back to its page and its size. */
  lemma {:induction false} HeaderRoundTrip(h: Heap, i: nat)
    requires HeapOk(h) && i < |h.live| && h.live[i].size % ALIGNMENT == 0
    ensures var b := h.live[i];
            var e := EncodeHeader(b.offset, b.size);
            && Address(b) - (PAGE_HEADER + e.pageOffset * ALIGNMENT) == b.page
            && b.page in h.pages
            && (if e.fullSize == 0 then h.pages[b.page].busySize else e.fullSize * ALIGNMENT) == b.size
            && e.pageOffset < 0x1_0000 && e.fullSize < 0x1_0000
  {
    var b := h.live[i];
    assert BlockOk(h, b) && PageOk(h, b.page);
  }

  // ---------------------------------------------------------------------

  class XmlAllocator {
    var list: seq<int>
    var pages: map<int, Page>
    var busySize: nat
    ghost var live: seq<Block>

    ghost function State(): (h: Heap)
      reads this
    {
      Heap(list, pages, busySize, live)
    }

    ghost predicate Valid()
      reads this
    {
      HeapOk(State())
    }

    // xml_document::create: the sentinel page counts as full
    constructor (sentinel: int)
      ensures Valid() && list == [sentinel] && live == []
    {
      list := [sentinel];
      pages := map[sentinel := Page(PAGE_SIZE, 0, 0)];
      busySize := PAGE_SIZE;
      live := [];
    }

    // allocate_memory_oob: small blocks start a new root page at the end of the
    // list, large ones get a page of their own before the root
    method AllocateMemoryOob(size: nat, a: int)
      requires Valid() && 0 < size && size % ALIGNMENT == 0 && (|list| == 1 ==> size <= THRESHOLD) && PAGE_SIZE < busySize + size
      requires FreshAt(State(), a, if size <= THRESHOLD then PAGE_SIZE else size)
      modifies this
      ensures Valid() && live == old(live) + [Block(a, 0, size)]
      ensures State() == if size <= THRESHOLD then NewRoot(old(State()), size, a) else OwnPage(old(State()), size, a)
    {
      var root := list[|list| - 1];
      if size <= THRESHOLD {
        NewRootOk(State(), size, a);
        pages := pages[root := pages[root].(busySize := busySize)][a := Page(0, 0, PAGE_SIZE)];
        list := list + [a];
        busySize := size;
      } else {
        OwnPageOk(State(), size, a);
        pages := pages[a := Page(size, 0, size)];
        list := list[..|list| - 1] + [a, root];
      }
      live := live + [Block(a, 0, size)];
    }

    /** allocate_memory: a new block that overlaps no live block. */
    method AllocateMemory(size: nat, memory: bool, a: int) returns (ok: bool, page: int, offset: nat)
      requires Valid() && 0 < size && size % ALIGNMENT == 0 && (|list| == 1 ==> size <= THRESHOLD)
      requires memory ==> FreshAt(State(), a, if size <= THRESHOLD then PAGE_SIZE else size)
      modifies this
      ensures Valid() && (ok <==> memory || old(busySize) + size <= PAGE_SIZE)
      ensures ok ==> live == old(live) + [Block(page, offset, size)]
      ensures !ok ==> State() == old(State())
      ensures MAX_ENCODED <= size && ok ==> offset == 0 && page != list[|list| - 1] && page in pages && pages[page].busySize == size
    {
      if busySize + size <= PAGE_SIZE {
        InRootOk(State(), size);
        page, offset := list[|list| - 1], busySize;
        busySize := busySize + size;
        live := live + [Block(page, offset, size)];
        return true, page, offset;
      }
      page, offset := a, 0;
      ok := memory;
      if ok { AllocateMemoryOob(size, a); }
    }

    /** deallocate_memory: the block is gone; its page goes with it exactly when it
        was the last block there and the page is not the root. */
    method DeallocateMemory(ghost i: nat, page: int, offset: nat, size: nat)
      requires Valid() && i < |live| && live[i] == Block(page, offset, size)
      modifies this
      ensures Valid() && live == Without(old(live), i) && State() == Freed(old(State()), i)
      ensures page in pages <==> page == old(list)[|old(list)| - 1] || exists j :: 0 <= j < |old(live)| && j != i && old(live)[j].page == page
    {
      FreedOk(State(), i);
      FreedSizes(State(), i);
      ghost var after := Freed(State(), i);
      var root := list[|list| - 1];
      var p := pages[page];
      if page == root { p := p.(busySize := busySize); }
      assert offset < p.busySize;
      p := p.(freedSize := p.freedSize + size);
      assert p.freedSize <= p.busySize;
      live := Without(live, i);
      if p.freedSize != p.busySize {
        pages := pages[page := p];
      } else if page == root {
        pages := pages[page := p.(busySize := 0, freedSize := 0)];
        busySize := 0;
      } else {
        list := Unlinked(list, page);
        pages := pages - {page};
      }
      assert State() == after;
    }

    // allocate_string: block and header
    method AllocateString(length: nat, memory: bool, a: int) returns (ok: bool, header: int, encoded: StringHeader)
      requires Valid() && (|list| == 1 ==> FullSize(length) <= THRESHOLD)
      requires memory ==> FreshAt(State(), a, if FullSize(length) <= THRESHOLD then PAGE_SIZE else FullSize(length))
      modifies this
      ensures Valid()
      ensures ok ==> |live| == |old(live)| + 1 && live[..|old(live)|] == old(live)
      ensures ok ==> var b := live[|old(live)|];
                     b.size == FullSize(length) && header == Address(b) && encoded == EncodeHeader(b.offset, b.size)
      ensures !ok ==> State() == old(State())
    {
      var fullSize := FullSize(length);
      var page, offset;
      ok, page, offset := AllocateMemory(fullSize, memory, a);
      header := page + PAGE_HEADER + offset;
      encoded := StringHeader(offset / ALIGNMENT % 0x1_0000, if fullSize < MAX_ENCODED then fullSize / ALIGNMENT % 0x1_0000 else 0);
    }

    /** deallocate_string: given only the address of a live string and its header,
        frees exactly its block. */
    method DeallocateString(ghost i: nat, header: int, encoded: StringHeader)
      requires Valid() && i < |live| && live[i].size % ALIGNMENT == 0
      requires header == Address(live[i]) && encoded == EncodeHeader(live[i].offset, live[i].size)
      modifies this
      ensures Valid() && live == Without(old(live), i) && State() == Freed(old(State()), i)
    {
      HeaderRoundTrip(State(), i);
      var page := header - (PAGE_HEADER + encoded.pageOffset * ALIGNMENT);
      var fullSize := if encoded.fullSize == 0 then pages[page].busySize else encoded.fullSize * ALIGNMENT;
      DeallocateMemory(i, page, header - page - PAGE_HEADER, fullSize);
    }
  }
}
