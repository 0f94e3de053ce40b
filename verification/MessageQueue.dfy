/** mqueue.h, srt_queue: any number of threads push, one thread pops.

    Messages live in pages of p slots; a ring of n pointers leads to the pages.
    Pages are made by whoever needs them first and freed by the consumer.  The
    model is a transition system: every access to shared memory is a step of its
    own, except that the full test of push reads both counters at once. */
module MessageQueues {
  import Arithmetic

  const NONE := -1

  // p messages in a page, n pages in the ring: 2^page_msg_bits and 2^page_index_bits.
  datatype Config = Config(p: nat, n: nat)

  ghost predicate ConfigOk(c: Config) {
    1 <= c.p && 2 <= c.n
  }

  // The number of the page an index falls in: index >> page_msg_bits.
  function PageOf(c: Config, i: nat): (k: nat)
    requires ConfigOk(c)
    decreases i
  {
    if i < c.p then 0 else 1 + PageOf(c, i - c.p)
  }

  // index & page_msg_mask
  function OffsetOf(c: Config, i: nat): (o: nat)
    requires ConfigOk(c)
    ensures o < c.p
    decreases i
  {
    if i < c.p then i else OffsetOf(c, i - c.p)
  }

  // page number & page_index_mask
  function RingOf(c: Config, k: nat): (r: nat)
    requires ConfigOk(c)
    ensures r < c.n
    decreases k
  {
    if k < c.n then k else RingOf(c, k - c.n)
  }

  lemma {:induction false} PageIsQuotient(c: Config, i: nat)
    requires ConfigOk(c)
    ensures PageOf(c, i) == i / c.p && OffsetOf(c, i) == i % c.p
    decreases i
  {
    if i < c.p {
      SmallQuotient(i, c.p);
    } else {
      PageIsQuotient(c, i - c.p);
      QuotientStep(i, c.p);
    }
  }

  lemma {:induction false} RingIsRemainder(c: Config, k: nat)
    requires ConfigOk(c)
    ensures RingOf(c, k) == k % c.n
    decreases k
  {
    if k < c.n {
      SmallQuotient(k, c.n);
    } else {
      RingIsRemainder(c, k - c.n);
      QuotientStep(k, c.n);
    }
  }

  lemma SmallQuotient(i: nat, d: nat)
    requires i < d
    ensures i / d == 0 && i % d == i
  {
  }

  lemma QuotientStep(i: nat, d: nat)
    requires 0 < d <= i
    ensures i / d == 1 + (i - d) / d && i % d == (i - d) % d
  {
    var q, r := (i - d) / d, (i - d) % d;
    assert i == d * (q + 1) + r;
    Arithmetic.QuotientUnique(i, d, q + 1, r);
  }

  // ---------------------------------------------------------------------
  // Indices, pages and ring positions.

  lemma {:induction false} NextIndex(c: Config, i: nat)
    requires ConfigOk(c)
    ensures if OffsetOf(c, i) == c.p - 1 then PageOf(c, i + 1) == PageOf(c, i) + 1 && OffsetOf(c, i + 1) == 0
            else PageOf(c, i + 1) == PageOf(c, i) && OffsetOf(c, i + 1) == OffsetOf(c, i) + 1
    decreases i
  {
    if c.p <= i { NextIndex(c, i - c.p); }
  }

  lemma {:induction false} PageMonotone(c: Config, i: nat, j: nat)
    requires ConfigOk(c) && i <= j
    ensures PageOf(c, i) <= PageOf(c, j)
    decreases j
  {
    if c.p <= i { PageMonotone(c, i - c.p, j - c.p); }
  }

  // An index is determined by its page and its offset.
  lemma {:induction false} SameIndex(c: Config, i: nat, j: nat)
    requires ConfigOk(c) && PageOf(c, i) == PageOf(c, j) && OffsetOf(c, i) == OffsetOf(c, j)
    ensures i == j
    decreases i
  {
    if c.p <= i && c.p <= j { SameIndex(c, i - c.p, j - c.p); }
  }

  // Adding m pages' worth of messages adds m to the page.
  lemma {:induction false} PageShift(c: Config, i: nat, m: nat)
    requires ConfigOk(c)
    ensures PageOf(c, i + m * c.p) == PageOf(c, i) + m
    decreases m
  {
    if m == 0 {
      assert i + m * c.p == i;
    } else {
      PageShift(c, i, m - 1);
      assert i + m * c.p == i + (m - 1) * c.p + c.p;
    }
  }

  // Two page numbers in one window of n pages have different ring positions.
  lemma {:induction false} RingDistinct(c: Config, k: nat, l: nat)
    requires ConfigOk(c) && k < l < k + c.n
    ensures RingOf(c, k) != RingOf(c, l)
    decreases k
  {
    if c.n <= k { RingDistinct(c, k - c.n, l - c.n); }
  }

  lemma RingSame(c: Config, k: nat, l: nat, lo: nat)
    requires ConfigOk(c) && lo <= k < lo + c.n && lo <= l < lo + c.n && RingOf(c, k) == RingOf(c, l)
    ensures k == l
  {
    if k < l { RingDistinct(c, k, l); }
    if l < k { RingDistinct(c, l, k); }
  }

  // ---------------------------------------------------------------------
  // State.

  datatype Slot = Slot(msg: int, flag: bool)

  // number is the number of the page in the sequence of all indices.
  datatype Page = Page(number: nat, slots: seq<Slot>)

  // Where a thread is in get_msg_page: before the first test, before the lock,
  // before the second test, before the store, before the last read.
  datatype Fetching = Check | Wait | Locked | Alloc | Fetch

  datatype Producer =
    | Idle
    | Tested(m: int)
    | Getting(m: int, i: nat, at: Fetching)
    | Writing(m: int, i: nat, page: int)
    | Flagging(m: int, i: nat, page: int)

  datatype Consumer =
    | Resting
    | Popping(at: Fetching)
    | Looking(page: int)
    | Deleting(page: int)
    | Clearing
    | Counting

  // pages holds the pages that are allocated; claimed and popped are history:
  // the messages in the order of their indices, and in the order popped.
  datatype State = State(
    post: nat, get: nat, ring: seq<int>, pages: map<int, Page>, fresh': nat, mutex: int,
    producers: seq<Producer>, consumer: Consumer, claimed: seq<int>, popped: seq<int>)

  const CONSUMER := -2

  function Init(c: Config, threads: nat): State
    requires ConfigOk(c)
  {
    State(0, 0, seq(c.n, r => if r == 0 then 0 else NONE), map[0 := EmptyPage(c, 0)], 1, NONE,
          seq(threads, _ => Idle), Resting, [], [])
  }

  function EmptyPage(c: Config, k: nat): Page {
    Page(k, seq(c.p, _ => Slot(0, false)))
  }

  datatype Action = Test(t: nat, m: int) | Claim(t: nat) | GetPage(t: nat) | Write(t: nat) | SetFlag(t: nat)
                  | PopTest | PopGetPage | PopLook | PopDelete | PopClear | PopCount

  // ---------------------------------------------------------------------
  // Steps.

  predicate FullTest(c: Config, s: State)
    requires ConfigOk(c) && s.get <= s.post
  {
    PageOf(c, s.post - s.get) >= c.n - 1
  }

  function Position(c: Config, i: nat): (r: nat)
    requires ConfigOk(c)
    ensures r < c.n
  {
    RingOf(c, PageOf(c, i))
  }

  predicate CanFetch(s: State, at: Fetching) {
    at == Wait ==> s.mutex == NONE
  }

  // get_msg_page for index i by thread who: the ring and the pages afterwards.
  function FetchStep(c: Config, s: State, at: Fetching, i: nat, who: int): (r: (State, Fetching))
    requires ConfigOk(c) && |s.ring| == c.n && at != Fetch
  {
    var pos := Position(c, i);
    match at
    case Check => (s, if s.ring[pos] == NONE then Wait else Fetch)
    case Wait => (s.(mutex := who), Locked)
    case Locked => if s.ring[pos] == NONE then (s, Alloc) else (s.(mutex := NONE), Fetch)
    case Alloc =>
      (s.(ring := s.ring[pos := s.fresh'], pages := s.pages[s.fresh' := EmptyPage(c, PageOf(c, i))],
          fresh' := s.fresh' + 1, mutex := NONE), Fetch)
  }

  predicate Live(c: Config, s: State, page: int, o: nat) {
    page in s.pages && o < |s.pages[page].slots|
  }

  function SetSlot(s: State, page: int, o: nat, x: Slot): State
    requires page in s.pages && o < |s.pages[page].slots|
  {
    s.(pages := s.pages[page := Page(s.pages[page].number, s.pages[page].slots[o := x])])
  }

  function At(s: State, t: nat, q: Producer): State
    requires t < |s.producers|
  {
    s.(producers := s.producers[t := q])
  }

  // Using a page that is not allocated is not a step: that it never comes up is
  // part of what is proved.
  predicate Enabled(c: Config, s: State, a: Action) {
    match a
    case Test(t, _) => t < |s.producers| && s.producers[t].Idle?
    case Claim(t) => t < |s.producers| && s.producers[t].Tested?
    case GetPage(t) => t < |s.producers| && s.producers[t].Getting? && CanFetch(s, s.producers[t].at)
    case Write(t) => t < |s.producers| && s.producers[t].Writing? && s.producers[t].page in s.pages
    case SetFlag(t) => t < |s.producers| && s.producers[t].Flagging? && s.producers[t].page in s.pages
    case PopTest => s.consumer.Resting?
    case PopGetPage => s.consumer.Popping? && CanFetch(s, s.consumer.at)
    case PopLook => s.consumer.Looking? && s.consumer.page in s.pages
    case PopDelete => s.consumer.Deleting?
    case PopClear => s.consumer.Clearing?
    case PopCount => s.consumer.Counting?
  }

  ghost predicate Shape(c: Config, s: State) {
    && |s.ring| == c.n && s.get <= s.post
    && forall id :: id in s.pages ==> |s.pages[id].slots| == c.p
  }

  function ProducerStep(c: Config, s: State, a: Action): State
    requires ConfigOk(c) && Shape(c, s) && Enabled(c, s, a) && !(a.PopTest? || a.PopGetPage? || a.PopLook? || a.PopDelete? || a.PopClear? || a.PopCount?)
  {
    var q := s.producers[a.t];
    match a
    case Test(t, m) => if FullTest(c, s) then s else At(s, t, Tested(m))
    case Claim(t) => At(s.(post := s.post + 1, claimed := s.claimed + [q.m]), t, Getting(q.m, s.post, Check))
    case GetPage(t) =>
      if q.at == Fetch then At(s, t, Writing(q.m, q.i, s.ring[Position(c, q.i)]))
      else
        var (s', at') := FetchStep(c, s, q.at, q.i, t);
        At(s', t, Getting(q.m, q.i, at'))
    case Write(t) =>
      var o := OffsetOf(c, q.i);
      At(SetSlot(s, q.page, o, Slot(q.m, s.pages[q.page].slots[o].flag)), t, Flagging(q.m, q.i, q.page))
    case SetFlag(t) =>
      var o := OffsetOf(c, q.i);
      At(SetSlot(s, q.page, o, Slot(s.pages[q.page].slots[o].msg, true)), t, Idle)
  }

  function ConsumerStep(c: Config, s: State, a: Action): State
    requires ConfigOk(c) && Shape(c, s) && Enabled(c, s, a) && (a.PopTest? || a.PopGetPage? || a.PopLook? || a.PopDelete? || a.PopClear? || a.PopCount?)
  {
    match a
    case PopTest => if s.get >= s.post then s else s.(consumer := Popping(Check))
    case PopGetPage =>
      if s.consumer.at == Fetch then s.(consumer := Looking(s.ring[Position(c, s.get)]))
      else
        var (s', at') := FetchStep(c, s, s.consumer.at, s.get, CONSUMER);
        s'.(consumer := Popping(at'))
    case PopLook =>
      var o := OffsetOf(c, s.get);
      var slot := s.pages[s.consumer.page].slots[o];
      if !slot.flag then s.(consumer := Resting)
      else s.(popped := s.popped + [slot.msg], consumer := if o == c.p - 1 then Deleting(s.consumer.page) else Counting)
    case PopDelete => s.(pages := s.pages - {s.consumer.page}, consumer := Clearing)
    case PopClear => s.(ring := s.ring[Position(c, s.get) := NONE], consumer := Counting)
    case PopCount => s.(get := s.get + 1, consumer := Resting)
  }

  function Step(c: Config, s: State, a: Action): State
    requires ConfigOk(c) && Shape(c, s) && Enabled(c, s, a)
  {
    if a.PopTest? || a.PopGetPage? || a.PopLook? || a.PopDelete? || a.PopClear? || a.PopCount?
    then ConsumerStep(c, s, a) else ProducerStep(c, s, a)
  }

  // ---------------------------------------------------------------------
  // The invariant.

  predicate HasIndex(q: Producer) {
    q.Getting? || q.Writing? || q.Flagging?
  }

  // Index i has been claimed by a push that is not finished.
  ghost predicate Pending(s: State, i: nat) {
    exists t :: 0 <= t < |s.producers| && HasIndex(s.producers[t]) && s.producers[t].i == i
  }

  // The page of index i is allocated and the ring leads to it.
  ghost predicate Present(c: Config, s: State, i: nat)
    requires ConfigOk(c) && Shape(c, s)
  {
    var id := s.ring[Position(c, i)];
    id in s.pages && s.pages[id].number == PageOf(c, i)
  }

  function SlotOf(c: Config, s: State, i: nat): Slot
    requires ConfigOk(c) && Shape(c, s) && Present(c, s, i)
  {
    s.pages[s.ring[Position(c, i)]].slots[OffsetOf(c, i)]
  }

  ghost predicate Flagged(c: Config, s: State, i: nat)
    requires ConfigOk(c) && Shape(c, s)
  {
    Present(c, s, i) && SlotOf(c, s, i).flag
  }

  // Threads that have passed the full test and not yet claimed an index.
  function Racing(ps: seq<Producer>): (k: nat) {
    if ps == [] then 0 else Racing(ps[..|ps| - 1]) + if ps[|ps| - 1].Tested? then 1 else 0
  }

  function Bound(c: Config): (b: nat)
    requires ConfigOk(c)
  {
    (c.n - 1) * c.p
  }

  ghost predicate Counters(c: Config, s: State)
    requires ConfigOk(c)
  {
    && s.get <= s.post == |s.claimed|
    && s.post - s.get + Racing(s.producers) <= Bound(c) + 1
    && |s.popped| == s.get + (if s.consumer.Deleting? || s.consumer.Clearing? || s.consumer.Counting? then 1 else 0)
    && s.popped <= s.claimed
  }

  ghost predicate RingInv(c: Config, s: State)
    requires ConfigOk(c) && Shape(c, s)
  {
    forall r :: 0 <= r < c.n ==>
      || s.ring[r] == NONE
      || (s.ring[r] in s.pages && RingOf(c, s.pages[s.ring[r]].number) == r)
      || (s.consumer.Clearing? && r == Position(c, s.get))
  }

  ghost predicate PageInv(c: Config, s: State)
    requires ConfigOk(c) && Shape(c, s)
  {
    forall id :: id in s.pages ==>
      && 0 <= id < s.fresh'
      && s.ring[RingOf(c, s.pages[id].number)] == id
      && PageOf(c, s.get) <= s.pages[id].number < PageOf(c, s.get) + c.n
  }

  // A set flag stands for a whole message.
  ghost predicate SlotInv(c: Config, s: State)
    requires ConfigOk(c) && Shape(c, s)
  {
    forall i: nat :: Flagged(c, s, i) ==> i < |s.claimed| && SlotOf(c, s, i).msg == s.claimed[i] && !Pending(s, i)
  }

  predicate HoldsLock(at: Fetching) {
    at == Locked || at == Alloc
  }

  ghost predicate FetchOk(c: Config, s: State, at: Fetching, i: nat, who: int)
    requires ConfigOk(c) && Shape(c, s)
  {
    && (HoldsLock(at) <==> s.mutex == who)
    && (at == Fetch ==> Present(c, s, i))
    && (at == Alloc ==> s.ring[Position(c, i)] == NONE)
  }

  ghost predicate ProducerOk(c: Config, s: State, t: nat)
    requires ConfigOk(c) && Shape(c, s) && t < |s.producers|
  {
    var q := s.producers[t];
    && (!q.Getting? ==> s.mutex != t)
    && (HasIndex(q) ==> |s.popped| <= q.i < |s.claimed| && s.claimed[q.i] == q.m)
    && (q.Getting? ==> FetchOk(c, s, q.at, q.i, t))
    && (q.Writing? || q.Flagging? ==> Present(c, s, q.i) && s.ring[Position(c, q.i)] == q.page)
    && (q.Flagging? ==> SlotOf(c, s, q.i).msg == q.m)
  }

  ghost predicate ProducersOk(c: Config, s: State)
    requires ConfigOk(c) && Shape(c, s)
  {
    && (forall t :: 0 <= t < |s.producers| ==> ProducerOk(c, s, t))
    && (forall t, u :: 0 <= t < u < |s.producers| && HasIndex(s.producers[t]) && HasIndex(s.producers[u]) ==> s.producers[t].i != s.producers[u].i)
  }

  // Every claimed index is still being written, or ready.
  ghost predicate NothingLost(c: Config, s: State)
    requires ConfigOk(c) && Shape(c, s)
  {
    forall i: nat :: |s.popped| <= i < |s.claimed| ==> Pending(s, i) || Flagged(c, s, i)
  }

  ghost predicate ConsumerOk(c: Config, s: State)
    requires ConfigOk(c) && Shape(c, s)
  {
    && (!s.consumer.Popping? ==> s.mutex != CONSUMER)
    && (!s.consumer.Resting? ==> s.get < s.post)
    && match s.consumer
       case Popping(at) => FetchOk(c, s, at, s.get, CONSUMER)
       case Looking(page) => Present(c, s, s.get) && s.ring[Position(c, s.get)] == page
       case Deleting(page) => Present(c, s, s.get) && s.ring[Position(c, s.get)] == page && OffsetOf(c, s.get) == c.p - 1
       case Clearing => OffsetOf(c, s.get) == c.p - 1 && forall id :: id in s.pages ==> s.pages[id].number != PageOf(c, s.get)
       case Counting => OffsetOf(c, s.get) == c.p - 1 ==> forall id :: id in s.pages ==> s.pages[id].number != PageOf(c, s.get)
       case Resting => true
  }

  ghost predicate Inv(c: Config, s: State) {
    && ConfigOk(c) && Shape(c, s)
    && Counters(c, s) && RingInv(c, s) && PageInv(c, s) && SlotInv(c, s)
    && ProducersOk(c, s) && NothingLost(c, s) && ConsumerOk(c, s)
  }

  // ---------------------------------------------------------------------
  // Facts about a state.

  lemma {:induction false} InWindow(c: Config, s: State, i: nat)
    requires ConfigOk(c) && Counters(c, s) && s.get <= i < s.post
    ensures PageOf(c, s.get) <= PageOf(c, i) < PageOf(c, s.get) + c.n
  {
    PageMonotone(c, s.get, i);
    PageMonotone(c, i, s.get + Bound(c));
    PageShift(c, s.get, c.n - 1);
  }

  // The consumer is past the page of get, so indices still to come are in later pages.
  lemma {:induction false} LaterPage(c: Config, s: State, i: nat)
    requires ConfigOk(c) && OffsetOf(c, s.get) == c.p - 1 && s.get + 1 <= i
    ensures PageOf(c, s.get) < PageOf(c, i)
  {
    NextIndex(c, s.get);
    PageMonotone(c, s.get + 1, i);
  }

  // A ring entry that is not null leads to the right page.
  lemma {:induction false} EntryIsPage(c: Config, s: State, i: nat)
    requires Inv(c, s) && |s.popped| <= i < s.post && s.ring[Position(c, i)] != NONE
    ensures Present(c, s, i)
  {
    var pos := Position(c, i);
    InWindow(c, s, i);
    if s.consumer.Clearing? {
      InWindow(c, s, s.get);
      LaterPage(c, s, i);
      if pos == Position(c, s.get) { RingSame(c, PageOf(c, i), PageOf(c, s.get), PageOf(c, s.get)); }
    }
    RingSame(c, s.pages[s.ring[pos]].number, PageOf(c, i), PageOf(c, s.get));
  }

  lemma {:induction false} InitInv(c: Config, threads: nat)
    requires ConfigOk(c)
    ensures Inv(c, Init(c, threads))
  {
    var s := Init(c, threads);
    NoneRacing(s.producers);
    forall i: nat ensures !Flagged(c, s, i) { }
  }

  lemma {:induction false} NoneRacing(ps: seq<Producer>)
    requires forall t :: 0 <= t < |ps| ==> !ps[t].Tested?
    ensures Racing(ps) == 0
    decreases |ps|
  {
    if ps != [] { NoneRacing(ps[..|ps| - 1]); }
  }

  lemma {:induction false} RacingUpdate(ps: seq<Producer>, t: nat, q: Producer)
    requires t < |ps|
    ensures Racing(ps[t := q]) == Racing(ps) - (if ps[t].Tested? then 1 else 0) + (if q.Tested? then 1 else 0)
    decreases |ps|
  {
    var n := |ps| - 1;
    if t < n {
      RacingUpdate(ps[..n], t, q);
      assert ps[t := q][..n] == ps[..n][t := q];
    } else {
      assert ps[t := q][..n] == ps[..n];
    }
  }

  // ---------------------------------------------------------------------
  // What a step of one producer changes for the others.

  lemma {:induction false} PendingSame(s: State, s': State, t: nat, q: Producer)
    requires t < |s.producers| && s'.producers == s.producers[t := q]
    requires HasIndex(q) == HasIndex(s.producers[t]) && (HasIndex(q) ==> q.i == s.producers[t].i)
    ensures forall i: nat :: Pending(s', i) <==> Pending(s, i)
  {
    forall i: nat ensures Pending(s', i) <==> Pending(s, i) {
      if u :| 0 <= u < |s.producers| && HasIndex(s.producers[u]) && s.producers[u].i == i {
        assert HasIndex(s'.producers[u]) && s'.producers[u].i == i;
      }
      if u :| 0 <= u < |s'.producers| && HasIndex(s'.producers[u]) && s'.producers[u].i == i {
        assert HasIndex(s.producers[u]) && s.producers[u].i == i;
      }
    }
  }

  lemma {:induction false} PendingMore(s: State, s': State, t: nat, q: Producer)
    requires t < |s.producers| && s'.producers == s.producers[t := q]
    requires HasIndex(q) && !HasIndex(s.producers[t])
    ensures forall i: nat :: Pending(s', i) <==> Pending(s, i) || i == q.i
  {
    forall i: nat ensures Pending(s', i) <==> Pending(s, i) || i == q.i {
      if u :| 0 <= u < |s.producers| && HasIndex(s.producers[u]) && s.producers[u].i == i {
        assert HasIndex(s'.producers[u]) && s'.producers[u].i == i;
      }
      assert s'.producers[t] == q;
      if u :| 0 <= u < |s'.producers| && HasIndex(s'.producers[u]) && s'.producers[u].i == i {
        assert u == t || (HasIndex(s.producers[u]) && s.producers[u].i == i);
      }
    }
  }

  lemma {:induction false} PendingLess(c: Config, s: State, s': State, t: nat)
    requires ConfigOk(c) && Shape(c, s) && ProducersOk(c, s)
    requires t < |s.producers| && HasIndex(s.producers[t]) && s'.producers == s.producers[t := Idle]
    ensures forall i: nat :: Pending(s', i) <==> Pending(s, i) && i != s.producers[t].i
  {
    forall i: nat ensures Pending(s', i) <==> Pending(s, i) && i != s.producers[t].i {
      if u :| 0 <= u < |s.producers| && HasIndex(s.producers[u]) && s.producers[u].i == i && i != s.producers[t].i {
        assert HasIndex(s'.producers[u]) && s'.producers[u].i == i;
      }
      if u :| 0 <= u < |s'.producers| && HasIndex(s'.producers[u]) && s'.producers[u].i == i {
        assert u != t && HasIndex(s.producers[u]) && s.producers[u].i == i;
      }
    }
  }

  // ---------------------------------------------------------------------
  // Each step keeps the invariant.

  lemma {:induction false} NotFull(c: Config, s: State)
    requires ConfigOk(c) && s.get <= s.post && !FullTest(c, s)
    ensures s.post - s.get < Bound(c)
  {
    if Bound(c) <= s.post - s.get {
      PageMonotone(c, Bound(c), s.post - s.get);
      PageShift(c, 0, c.n - 1);
    }
  }

  // The memory, the consumer and the messages popped are as before.
  ghost predicate SameMemory(s: State, s': State) {
    && s'.ring == s.ring && s'.pages == s.pages && s'.fresh' == s.fresh'
    && s'.get == s.get && s'.popped == s.popped && s'.consumer == s.consumer
  }

  // Thread t moves to q; others are not affected.
  lemma {:induction false} OthersOk(c: Config, s: State, s': State, t: nat, q: Producer)
    requires Inv(c, s) && Shape(c, s') && SameMemory(s, s') && t < |s.producers| && s'.producers == s.producers[t := q]
    requires s.claimed <= s'.claimed
    requires s'.mutex == s.mutex || (s.mutex == NONE && s'.mutex == t) || (s.mutex == t && s'.mutex == NONE)
    requires ProducerOk(c, s', t)
    requires HasIndex(q) ==> s.post <= q.i || (HasIndex(s.producers[t]) && q.i == s.producers[t].i)
    ensures ProducersOk(c, s')
  {
    forall u | 0 <= u < |s'.producers| ensures ProducerOk(c, s', u) { assert ProducerOk(c, s, u); }
    forall u, v | 0 <= u < v < |s'.producers| && HasIndex(s'.producers[u]) && HasIndex(s'.producers[v])
      ensures s'.producers[u].i != s'.producers[v].i
    {
      assert ProducerOk(c, s, u) && ProducerOk(c, s, v);
    }
  }

  lemma {:induction false} InvTest(c: Config, s: State, t: nat, m: int)
    requires Inv(c, s) && Enabled(c, s, Test(t, m)) && Racing(Step(c, s, Test(t, m)).producers) <= 2
    ensures Inv(c, Step(c, s, Test(t, m)))
  {
    if !FullTest(c, s) {
      var s' := At(s, t, Tested(m));
      NotFull(c, s);
      RacingUpdate(s.producers, t, Tested(m));
      PendingSame(s, s', t, Tested(m));
      assert ProducerOk(c, s, t);
      OthersOk(c, s, s', t, Tested(m));
    }
  }

  lemma {:induction false} InvClaim(c: Config, s: State, t: nat)
    requires Inv(c, s) && Enabled(c, s, Claim(t))
    ensures Inv(c, Step(c, s, Claim(t)))
  {
    var q := Getting(s.producers[t].m, s.post, Check);
    var s' := At(s.(post := s.post + 1, claimed := s.claimed + [q.m]), t, q);
    RacingUpdate(s.producers, t, q);
    PendingMore(s, s', t, q);
    assert ProducerOk(c, s, t);
    OthersOk(c, s, s', t, q);
    ClaimKeepsSlots(c, s, s', q);
  }

  lemma {:induction false} ClaimKeepsSlots(c: Config, s: State, s': State, q: Producer)
    requires Inv(c, s) && Shape(c, s') && SameMemory(s, s') && q.Getting? && q.i == s.post
    requires s'.claimed == s.claimed + [q.m]
    requires forall i: nat :: Pending(s', i) <==> Pending(s, i) || i == q.i
    ensures SlotInv(c, s') && NothingLost(c, s')
  {
    forall i: nat | Flagged(c, s', i) ensures i < |s'.claimed| && SlotOf(c, s', i).msg == s'.claimed[i] && !Pending(s', i) {
      assert Flagged(c, s, i);
    }
    forall i: nat | |s'.popped| <= i < |s'.claimed| ensures Pending(s', i) || Flagged(c, s', i) {
      if i < s.post { assert Pending(s, i) || Flagged(c, s, i); }
    }
  }

  // A step of get_msg_page that only moves its thread.
  lemma {:induction false} InvMove(c: Config, s: State, t: nat, q: Producer, mutex: int)
    requires Inv(c, s) && t < |s.producers| && s.producers[t].Getting?
    requires q.Getting? || q.Writing?
    requires q.m == s.producers[t].m && q.i == s.producers[t].i
    requires mutex == s.mutex || (s.mutex == NONE && mutex == t) || (s.mutex == t && mutex == NONE)
    requires q.Getting? ==> FetchOk(c, s.(mutex := mutex), q.at, q.i, t)
    requires q.Writing? ==> mutex != t && Present(c, s, q.i) && s.ring[Position(c, q.i)] == q.page
    ensures Inv(c, At(s.(mutex := mutex), t, q))
  {
    var s' := At(s.(mutex := mutex), t, q);
    RacingUpdate(s.producers, t, q);
    PendingSame(s, s', t, q);
    assert ProducerOk(c, s, t);
    OthersOk(c, s, s', t, q);
    MoveKeepsSlots(c, s, s');
  }

  lemma {:induction false} MoveKeepsSlots(c: Config, s: State, s': State)
    requires Inv(c, s) && Shape(c, s') && s'.ring == s.ring && s'.pages == s.pages && s'.claimed == s.claimed && |s.popped| <= |s'.popped|
    requires forall i: nat :: Pending(s', i) <==> Pending(s, i)
    ensures SlotInv(c, s') && NothingLost(c, s')
  {
    forall i: nat | Flagged(c, s', i) ensures i < |s'.claimed| && SlotOf(c, s', i).msg == s'.claimed[i] && !Pending(s', i) {
      assert Flagged(c, s, i);
    }
    forall i: nat | |s'.popped| <= i < |s'.claimed| ensures Pending(s', i) || Flagged(c, s', i) {
      assert Pending(s, i) || Flagged(c, s, i);
    }
  }

  // ---------------------------------------------------------------------
  // Making a page.

  // The state after a thread that holds the lock has stored a new page for index i.
  function WithPage(c: Config, s: State, i: nat): State
    requires ConfigOk(c) && Shape(c, s)
  {
    s.(ring := s.ring[Position(c, i) := s.fresh'], pages := s.pages[s.fresh' := EmptyPage(c, PageOf(c, i))],
       fresh' := s.fresh' + 1, mutex := NONE)
  }

  // Nothing that was there is lost, no flag appears, and the page of i is there.
  ghost predicate PageAdded(c: Config, s: State, s': State, i: nat)
    requires ConfigOk(c) && Shape(c, s) && Shape(c, s')
  {
    && (forall j: nat :: Present(c, s, j) ==> Present(c, s', j) && s'.ring[Position(c, j)] == s.ring[Position(c, j)] && SlotOf(c, s', j) == SlotOf(c, s, j))
    && (forall j: nat :: Flagged(c, s', j) ==> Flagged(c, s, j))
    && Present(c, s', i)
  }

  lemma {:induction false} NewPage(c: Config, s: State, i: nat)
    requires Inv(c, s) && |s.popped| <= i < s.post && s.ring[Position(c, i)] == NONE
    ensures Shape(c, WithPage(c, s, i)) && PageAdded(c, s, WithPage(c, s, i), i)
  {
    var s' := WithPage(c, s, i);
    var pos := Position(c, i);
    forall j: nat | Present(c, s, j)
      ensures Present(c, s', j) && s'.ring[Position(c, j)] == s.ring[Position(c, j)] && SlotOf(c, s', j) == SlotOf(c, s, j)
    {
      assert Position(c, j) != pos;
    }
    forall j: nat | Flagged(c, s', j) ensures Flagged(c, s, j) {
      assert Position(c, j) != pos;
    }
  }

  lemma {:induction false} NewPageMemory(c: Config, s: State, i: nat)
    requires Inv(c, s) && |s.popped| <= i < s.post && s.ring[Position(c, i)] == NONE
    ensures RingInv(c, WithPage(c, s, i)) && PageInv(c, WithPage(c, s, i))
  {
    InWindow(c, s, i);
    var s', pos := WithPage(c, s, i), Position(c, i);
    forall id | id in s'.pages
      ensures 0 <= id < s'.fresh' && s'.ring[RingOf(c, s'.pages[id].number)] == id
           && PageOf(c, s.get) <= s'.pages[id].number < PageOf(c, s.get) + c.n
    {
      if id in s.pages { assert RingOf(c, s.pages[id].number) != pos; }
    }
  }

  lemma {:induction false} NewPageSlots(c: Config, s: State, s': State, i: nat)
    requires Inv(c, s) && Shape(c, s') && PageAdded(c, s, s', i)
    requires s'.claimed == s.claimed && s'.popped == s.popped
    requires forall j: nat :: Pending(s', j) <==> Pending(s, j)
    ensures SlotInv(c, s') && NothingLost(c, s')
  {
    forall j: nat | Flagged(c, s', j) ensures j < |s'.claimed| && SlotOf(c, s', j).msg == s'.claimed[j] && !Pending(s', j) {
      assert Flagged(c, s, j);
    }
    forall j: nat | |s'.popped| <= j < |s'.claimed| ensures Pending(s', j) || Flagged(c, s', j) {
      assert Pending(s, j) || Flagged(c, s, j);
    }
  }

  // Everybody but the thread that held the lock.
  lemma {:induction false} NewPageProducers(c: Config, s: State, s': State, i: nat, u: nat)
    requires Inv(c, s) && Shape(c, s') && PageAdded(c, s, s', i) && u < |s.producers| == |s'.producers| && s'.producers[u] == s.producers[u]
    requires s.mutex != u && s'.mutex == NONE && s'.claimed == s.claimed && s'.popped == s.popped
    ensures ProducerOk(c, s', u)
  {
    assert ProducerOk(c, s, u);
  }

  lemma {:induction false} NewPageConsumer(c: Config, s: State, s': State, i: nat)
    requires Inv(c, s) && |s.popped| <= i < s.post && s.ring[Position(c, i)] == NONE
    requires Shape(c, s') && PageAdded(c, s, s', i) && s.mutex != CONSUMER
    requires s'.pages == WithPage(c, s, i).pages && s'.get == s.get && s'.post == s.post && s'.consumer == s.consumer && s'.mutex == NONE
    ensures ConsumerOk(c, s')
  {
    if s.consumer.Clearing? || (s.consumer.Counting? && OffsetOf(c, s.get) == c.p - 1) { LaterPage(c, s, i); }
  }

  lemma {:induction false} InvAlloc(c: Config, s: State, t: nat)
    requires Inv(c, s) && t < |s.producers| && s.producers[t].Getting? && s.producers[t].at == Alloc
    ensures Inv(c, Step(c, s, GetPage(t)))
  {
    var i := s.producers[t].i;
    var q := Getting(s.producers[t].m, i, Fetch);
    assert ProducerOk(c, s, t);
    var s1 := WithPage(c, s, i);
    var s' := At(s1, t, q);
    NewPage(c, s, i);
    NewPageMemory(c, s, i);
    RacingUpdate(s.producers, t, q);
    PendingSame(s, s', t, q);
    assert PageAdded(c, s, s', i);
    NewPageSlots(c, s, s', i);
    NewPageConsumer(c, s, s', i);
    forall u | 0 <= u < |s'.producers| ensures ProducerOk(c, s', u) {
      if u != t { NewPageProducers(c, s, s', i, u); }
    }
  }

  lemma {:induction false} InvGetPage(c: Config, s: State, t: nat)
    requires Inv(c, s) && Enabled(c, s, GetPage(t))
    ensures Inv(c, Step(c, s, GetPage(t)))
  {
    var q := s.producers[t];
    assert ProducerOk(c, s, t);
    var pos := Position(c, q.i);
    match q.at
    case Check =>
      if s.ring[pos] != NONE { EntryIsPage(c, s, q.i); }
      InvMove(c, s, t, Getting(q.m, q.i, if s.ring[pos] == NONE then Wait else Fetch), s.mutex);
    case Wait => InvMove(c, s, t, Getting(q.m, q.i, Locked), t);
    case Locked =>
      if s.ring[pos] == NONE {
        InvMove(c, s, t, Getting(q.m, q.i, Alloc), s.mutex);
      } else {
        EntryIsPage(c, s, q.i);
        InvMove(c, s, t, Getting(q.m, q.i, Fetch), NONE);
      }
    case Alloc => InvAlloc(c, s, t);
    case Fetch => InvMove(c, s, t, Writing(q.m, q.i, s.ring[pos]), s.mutex);
  }

  // ---------------------------------------------------------------------
  // Writing a slot.

  lemma {:induction false} SlotWritten(c: Config, s: State, i: nat, x: Slot)
    requires Inv(c, s) && Present(c, s, i)
    ensures var s' := SetSlot(s, s.ring[Position(c, i)], OffsetOf(c, i), x);
            && Shape(c, s') && RingInv(c, s') && PageInv(c, s')
            && forall j: nat :: (Present(c, s', j) <==> Present(c, s, j)) && (Present(c, s, j) ==> SlotOf(c, s', j) == if j == i then x else SlotOf(c, s, j))
  {
    var s' := SetSlot(s, s.ring[Position(c, i)], OffsetOf(c, i), x);
    forall j: nat
      ensures (Present(c, s', j) <==> Present(c, s, j)) && (Present(c, s, j) ==> SlotOf(c, s', j) == if j == i then x else SlotOf(c, s, j))
    {
      if Present(c, s, j) && PageOf(c, j) == PageOf(c, i) && OffsetOf(c, j) == OffsetOf(c, i) { SameIndex(c, i, j); }
    }
  }

  // Thread t writes the slot of its own index i and moves to q.
  ghost predicate Wrote(c: Config, s: State, s': State, t: nat, i: nat, x: Slot, q: Producer)
    requires ConfigOk(c) && Shape(c, s)
  {
    && t < |s.producers| && HasIndex(s.producers[t]) && s.producers[t].i == i && s.producers[t].m == x.msg && Present(c, s, i)
    && s' == At(SetSlot(s, s.ring[Position(c, i)], OffsetOf(c, i), x), t, q)
  }

  lemma {:induction false} WroteOthers(c: Config, s: State, s': State, t: nat, i: nat, x: Slot, q: Producer)
    requires Inv(c, s) && Wrote(c, s, s', t, i, x, q) && Shape(c, s') && ProducerOk(c, s', t) && (HasIndex(q) ==> q.i == i)
    requires forall j: nat :: (Present(c, s', j) <==> Present(c, s, j)) && (Present(c, s, j) ==> SlotOf(c, s', j) == if j == i then x else SlotOf(c, s, j))
    ensures ProducersOk(c, s')
  {
    forall u | 0 <= u < |s'.producers| ensures ProducerOk(c, s', u) {
      assert ProducerOk(c, s, u);
      if u != t && HasIndex(s.producers[u]) { assert s.producers[u].i != i; }
    }
  }

  lemma {:induction false} PendingIsNotFlagged(c: Config, s: State, t: nat)
    requires Inv(c, s) && t < |s.producers| && HasIndex(s.producers[t])
    ensures !Flagged(c, s, s.producers[t].i) && Pending(s, s.producers[t].i)
  {
  }

  lemma {:induction false} InvWrite(c: Config, s: State, t: nat)
    requires Inv(c, s) && Enabled(c, s, Write(t))
    ensures Inv(c, Step(c, s, Write(t)))
  {
    var q := s.producers[t];
    assert ProducerOk(c, s, t);
    var x := Slot(q.m, SlotOf(c, s, q.i).flag);
    var q' := Flagging(q.m, q.i, q.page);
    var s' := Step(c, s, Write(t));
    assert Wrote(c, s, s', t, q.i, x, q');
    SlotWritten(c, s, q.i, x);
    RacingUpdate(s.producers, t, q');
    PendingSame(s, s', t, q');
    PendingIsNotFlagged(c, s, t);
    assert ProducerOk(c, s', t);
    WroteOthers(c, s, s', t, q.i, x, q');
    forall j: nat | |s'.popped| <= j < |s'.claimed| ensures Pending(s', j) || Flagged(c, s', j) {
      assert Pending(s, j) || Flagged(c, s, j);
    }
    forall j: nat | Flagged(c, s', j) ensures j < |s'.claimed| && SlotOf(c, s', j).msg == s'.claimed[j] && !Pending(s', j) {
      assert Flagged(c, s, j);
    }
  }

  lemma {:induction false} InvSetFlag(c: Config, s: State, t: nat)
    requires Inv(c, s) && Enabled(c, s, SetFlag(t))
    ensures Inv(c, Step(c, s, SetFlag(t)))
  {
    var q := s.producers[t];
    assert ProducerOk(c, s, t);
    var x := Slot(q.m, true);
    var s' := Step(c, s, SetFlag(t));
    assert Wrote(c, s, s', t, q.i, x, Idle);
    SlotWritten(c, s, q.i, x);
    RacingUpdate(s.producers, t, Idle);
    PendingLess(c, s, s', t);
    assert ProducerOk(c, s', t);
    WroteOthers(c, s, s', t, q.i, x, Idle);
    forall j: nat | |s'.popped| <= j < |s'.claimed| ensures Pending(s', j) || Flagged(c, s', j) {
      assert Pending(s, j) || Flagged(c, s, j);
    }
    forall j: nat | Flagged(c, s', j) ensures j < |s'.claimed| && SlotOf(c, s', j).msg == s'.claimed[j] && !Pending(s', j) {
      assert j == q.i || Flagged(c, s, j);
    }
  }

  // ---------------------------------------------------------------------
  // The consumer.

  // A step that changes the consumer and the lock only.
  lemma {:induction false} InvPopMove(c: Config, s: State, k: Consumer, mutex: int)
    requires Inv(c, s) && (s.consumer.Resting? || s.consumer.Popping? || s.consumer.Looking?) && (k.Resting? || k.Popping? || k.Looking?)
    requires mutex == s.mutex || (s.mutex == NONE && mutex == CONSUMER) || (s.mutex == CONSUMER && mutex == NONE)
    requires ConsumerOk(c, s.(mutex := mutex, consumer := k))
    ensures Inv(c, s.(mutex := mutex, consumer := k))
  {
    var s' := s.(mutex := mutex, consumer := k);
    forall u | 0 <= u < |s'.producers| ensures ProducerOk(c, s', u) { assert ProducerOk(c, s, u); }
    assert forall i: nat :: Pending(s', i) <==> Pending(s, i);
    MoveKeepsSlots(c, s, s');
  }

  lemma {:induction false} InvPopAlloc(c: Config, s: State)
    requires Inv(c, s) && s.consumer == Popping(Alloc)
    ensures Inv(c, Step(c, s, PopGetPage))
  {
    var s1 := WithPage(c, s, s.get);
    var s' := s1.(consumer := Popping(Fetch));
    NewPage(c, s, s.get);
    NewPageMemory(c, s, s.get);
    assert forall j: nat :: Pending(s', j) <==> Pending(s, j);
    assert PageAdded(c, s, s', s.get);
    NewPageSlots(c, s, s', s.get);
    forall u | 0 <= u < |s'.producers| ensures ProducerOk(c, s', u) {
      NewPageProducers(c, s, s', s.get, u);
    }
  }

  lemma {:induction false} InvPopGetPage(c: Config, s: State)
    requires Inv(c, s) && Enabled(c, s, PopGetPage)
    ensures Inv(c, Step(c, s, PopGetPage))
  {
    var pos := Position(c, s.get);
    match s.consumer.at
    case Check =>
      if s.ring[pos] != NONE { EntryIsPage(c, s, s.get); }
      InvPopMove(c, s, Popping(if s.ring[pos] == NONE then Wait else Fetch), s.mutex);
    case Wait => InvPopMove(c, s, Popping(Locked), CONSUMER);
    case Locked =>
      if s.ring[pos] == NONE {
        InvPopMove(c, s, Popping(Alloc), s.mutex);
      } else {
        EntryIsPage(c, s, s.get);
        InvPopMove(c, s, Popping(Fetch), NONE);
      }
    case Alloc => InvPopAlloc(c, s);
    case Fetch => InvPopMove(c, s, Looking(s.ring[pos]), s.mutex);
  }

  lemma {:induction false} InvPopTest(c: Config, s: State)
    requires Inv(c, s) && Enabled(c, s, PopTest)
    ensures Inv(c, Step(c, s, PopTest))
  {
    if s.get < s.post { InvPopMove(c, s, Popping(Check), s.mutex); }
  }

  // The message popped is the one claimed first of those left, whole.
  lemma {:induction false} PopsNext(c: Config, s: State)
    requires Inv(c, s) && s.consumer.Looking? && Flagged(c, s, s.get)
    ensures SlotOf(c, s, s.get).msg == s.claimed[s.get] && s.popped + [s.claimed[s.get]] <= s.claimed
    ensures forall u :: 0 <= u < |s.producers| && HasIndex(s.producers[u]) ==> s.get + 1 <= s.producers[u].i
  {
    forall u | 0 <= u < |s.producers| && HasIndex(s.producers[u]) ensures s.get + 1 <= s.producers[u].i {
      assert ProducerOk(c, s, u);
      PendingIsNotFlagged(c, s, u);
    }
    assert s.popped == s.claimed[..s.get];
    assert s.claimed[..s.get + 1] == s.popped + [s.claimed[s.get]];
  }

  lemma {:induction false} InvPopLook(c: Config, s: State)
    requires Inv(c, s) && Enabled(c, s, PopLook)
    ensures Inv(c, Step(c, s, PopLook))
  {
    if Flagged(c, s, s.get) {
      PopsNext(c, s);
      var s' := Step(c, s, PopLook);
      assert s'.popped == s.popped + [s.claimed[s.get]];
      forall u | 0 <= u < |s'.producers| ensures ProducerOk(c, s', u) { assert ProducerOk(c, s, u); }
      assert forall i: nat :: Pending(s', i) <==> Pending(s, i);
      MoveKeepsSlots(c, s, s');
    } else {
      InvPopMove(c, s, Resting, s.mutex);
    }
  }

  // Freeing the page of get, or clearing its ring entry, leaves the pages of the
  // indices still to come as they are.
  ghost predicate LaterKept(c: Config, s: State, s': State)
    requires ConfigOk(c) && Shape(c, s) && Shape(c, s')
  {
    && (forall j: nat :: s.get + 1 <= j && Present(c, s, j) ==>
          Present(c, s', j) && s'.ring[Position(c, j)] == s.ring[Position(c, j)] && SlotOf(c, s', j) == SlotOf(c, s, j))
    && (forall j: nat :: Flagged(c, s', j) ==> Flagged(c, s, j) && SlotOf(c, s', j) == SlotOf(c, s, j))
    && (forall r :: 0 <= r < c.n && s.ring[r] == NONE ==> s'.ring[r] == NONE)
  }

  lemma {:induction false} LaterOk(c: Config, s: State, s': State)
    requires Inv(c, s) && |s.popped| == s.get + 1 && Shape(c, s') && LaterKept(c, s, s')
    requires s'.producers == s.producers && s'.mutex == s.mutex && s'.claimed == s.claimed && s'.popped == s.popped
    ensures ProducersOk(c, s') && SlotInv(c, s') && NothingLost(c, s')
  {
    forall u | 0 <= u < |s'.producers| ensures ProducerOk(c, s', u) { assert ProducerOk(c, s, u); }
    assert forall j: nat :: Pending(s', j) <==> Pending(s, j);
    forall j: nat | |s'.popped| <= j < |s'.claimed| ensures Pending(s', j) || Flagged(c, s', j) {
      assert Pending(s, j) || Flagged(c, s, j);
    }
  }

  lemma {:induction false} InvPopDelete(c: Config, s: State)
    requires Inv(c, s) && Enabled(c, s, PopDelete)
    ensures Inv(c, Step(c, s, PopDelete))
  {
    var page := s.consumer.page;
    var s' := s.(pages := s.pages - {page}, consumer := Clearing);
    assert s.ring[RingOf(c, s.pages[page].number)] == page;
    forall j: nat | s.get + 1 <= j && Present(c, s, j)
      ensures Present(c, s', j) && s'.ring[Position(c, j)] == s.ring[Position(c, j)] && SlotOf(c, s', j) == SlotOf(c, s, j)
    {
      LaterPage(c, s, j);
    }
    forall j: nat | Flagged(c, s', j) ensures Flagged(c, s, j) && SlotOf(c, s', j) == SlotOf(c, s, j) { }
    LaterOk(c, s, s');
  }

  lemma {:induction false} InvPopClear(c: Config, s: State)
    requires Inv(c, s) && Enabled(c, s, PopClear)
    ensures Inv(c, Step(c, s, PopClear))
  {
    var pos := Position(c, s.get);
    var s' := s.(ring := s.ring[pos := NONE], consumer := Counting);
    InWindow(c, s, s.get);
    forall id | id in s.pages ensures RingOf(c, s.pages[id].number) != pos {
      if RingOf(c, s.pages[id].number) == pos { RingSame(c, s.pages[id].number, PageOf(c, s.get), PageOf(c, s.get)); }
    }
    forall j: nat | Present(c, s, j) ensures Position(c, j) != pos { }
    forall j: nat | Flagged(c, s', j) ensures Flagged(c, s, j) && SlotOf(c, s', j) == SlotOf(c, s, j) {
      assert NONE !in s'.pages;
      assert Position(c, j) != pos;
    }
    LaterOk(c, s, s');
  }

  lemma {:induction false} InvPopCount(c: Config, s: State)
    requires Inv(c, s) && Enabled(c, s, PopCount)
    ensures Inv(c, Step(c, s, PopCount))
  {
    var s' := s.(get := s.get + 1, consumer := Resting);
    NextIndex(c, s.get);
    forall u | 0 <= u < |s'.producers| ensures ProducerOk(c, s', u) { assert ProducerOk(c, s, u); }
    assert forall i: nat :: Pending(s', i) <==> Pending(s, i);
    MoveKeepsSlots(c, s, s');
  }

  // ---------------------------------------------------------------------
  // All runs.

  lemma {:induction false} InvStep(c: Config, s: State, a: Action)
    requires Inv(c, s) && Enabled(c, s, a) && Racing(Step(c, s, a).producers) <= 2
    ensures Inv(c, Step(c, s, a))
  {
    match a
    case Test(t, m) => InvTest(c, s, t, m);
    case Claim(t) => InvClaim(c, s, t);
    case GetPage(t) => InvGetPage(c, s, t);
    case Write(t) => InvWrite(c, s, t);
    case SetFlag(t) => InvSetFlag(c, s, t);
    case PopTest => InvPopTest(c, s);
    case PopGetPage => InvPopGetPage(c, s);
    case PopLook => InvPopLook(c, s);
    case PopDelete => InvPopDelete(c, s);
    case PopClear => InvPopClear(c, s);
    case PopCount => InvPopCount(c, s);
  }

  // A run from the initial state in which at most k threads are between the full
  // test and the claim.
  ghost predicate Run(c: Config, threads: nat, k: nat, actions: seq<Action>, s: State)
    requires ConfigOk(c)
    decreases |actions|
  {
    if actions == [] then s == Init(c, threads)
    else exists before :: RunStep(c, threads, k, actions, before, s)
  }

  ghost predicate RunStep(c: Config, threads: nat, k: nat, actions: seq<Action>, before: State, s: State)
    requires ConfigOk(c) && actions != []
    decreases |actions|, 0
  {
    var a := actions[|actions| - 1];
    && Run(c, threads, k, actions[..|actions| - 1], before)
    && Shape(c, before) && Enabled(c, before, a) && s == Step(c, before, a)
    && Racing(s.producers) <= k
  }

  lemma {:induction false} RunInv(c: Config, threads: nat, k: nat, actions: seq<Action>, s: State)
    requires ConfigOk(c) && k <= 2 && Run(c, threads, k, actions, s)
    ensures Inv(c, s)
    decreases |actions|
  {
    if actions == [] {
      InitInv(c, threads);
    } else {
      var before :| RunStep(c, threads, k, actions, before, s);
      RunInv(c, threads, k, actions[..|actions| - 1], before);
      InvStep(c, before, actions[|actions| - 1]);
    }
  }

  // No thread uses memory that is not allocated, and the page about to be freed
  // is in nobody's hands.
  ghost predicate MemorySafe(c: Config, s: State)
    requires ConfigOk(c)
  {
    && (forall t :: 0 <= t < |s.producers| && (s.producers[t].Writing? || s.producers[t].Flagging?) ==> s.producers[t].page in s.pages)
    && (s.consumer.Looking? ==> s.consumer.page in s.pages)
    && (s.consumer.Deleting? ==> s.consumer.page in s.pages)
    && (s.consumer.Deleting? ==> forall t :: 0 <= t < |s.producers| && HasIndex(s.producers[t]) ==>
          PageOf(c, s.producers[t].i) != s.pages[s.consumer.page].number)
  }

  ghost predicate ProducerSafe(c: Config, s: State, t: nat)
    requires ConfigOk(c) && t < |s.producers|
  {
    var q := s.producers[t];
    && (q.Writing? || q.Flagging? ==> q.page in s.pages)
    && (HasIndex(q) && s.consumer.Deleting? ==> PageOf(c, q.i) > PageOf(c, s.get))
  }

  lemma {:induction false} ProducerIsSafe(c: Config, s: State, t: nat)
    requires Inv(c, s) && t < |s.producers|
    ensures ProducerSafe(c, s, t)
  {
    assert ProducerOk(c, s, t);
    if HasIndex(s.producers[t]) && s.consumer.Deleting? { LaterPage(c, s, s.producers[t].i); }
  }

  // Live indices of different pages never share a ring position.
  ghost predicate RingSuffices(c: Config, s: State)
    requires ConfigOk(c)
  {
    forall i: nat, j: nat :: s.get <= i < s.post && s.get <= j < s.post && Position(c, i) == Position(c, j) ==> PageOf(c, i) == PageOf(c, j)
  }

  // Every message claimed and not popped is ready in its slot.
  ghost predicate AllReady(c: Config, s: State)
    requires ConfigOk(c)
  {
    && Shape(c, s) && |s.claimed| == s.post
    && forall i: nat :: |s.popped| <= i < s.post ==> Flagged(c, s, i) && SlotOf(c, s, i).msg == s.claimed[i]
  }

  /** Every interleaving in which at most two threads are between the full test
      and the claim: messages are popped in the order of their claims, each once
      and whole; no freed page is used; and when no push is under way, every
      message claimed and not popped is ready in its slot. */
  lemma {:induction false} QueueIsSafe(c: Config, threads: nat, actions: seq<Action>, s: State)
    requires ConfigOk(c) && Run(c, threads, 2, actions, s)
    ensures s.popped <= s.claimed && |s.claimed| == s.post
    ensures MemorySafe(c, s) && RingSuffices(c, s)
    ensures (forall t :: 0 <= t < |s.producers| ==> s.producers[t].Idle?) ==> AllReady(c, s)
  {
    RunInv(c, threads, 2, actions, s);
    MemoryIsSafe(c, s);
    RingIsEnough(c, s);
    if forall t :: 0 <= t < |s.producers| ==> s.producers[t].Idle? { QuietIsReady(c, s); }
  }

  lemma {:induction false} MemoryIsSafe(c: Config, s: State)
    requires Inv(c, s)
    ensures MemorySafe(c, s)
  {
    forall t: nat | t < |s.producers| ensures ProducerSafe(c, s, t) { ProducerIsSafe(c, s, t); }
    forall t | 0 <= t < |s.producers| && (s.producers[t].Writing? || s.producers[t].Flagging?) ensures s.producers[t].page in s.pages {
      assert ProducerSafe(c, s, t);
    }
    if s.consumer.Deleting? {
      forall t | 0 <= t < |s.producers| && HasIndex(s.producers[t]) ensures PageOf(c, s.producers[t].i) != s.pages[s.consumer.page].number {
        assert ProducerSafe(c, s, t);
      }
    }
  }

  lemma {:induction false} RingIsEnough(c: Config, s: State)
    requires Inv(c, s)
    ensures RingSuffices(c, s)
  {
    forall i: nat, j: nat | s.get <= i < s.post && s.get <= j < s.post && Position(c, i) == Position(c, j) ensures PageOf(c, i) == PageOf(c, j) {
      InWindow(c, s, i);
      InWindow(c, s, j);
      RingSame(c, PageOf(c, i), PageOf(c, j), PageOf(c, s.get));
    }
  }

  lemma {:induction false} QuietIsReady(c: Config, s: State)
    requires Inv(c, s) && forall t :: 0 <= t < |s.producers| ==> s.producers[t].Idle?
    ensures AllReady(c, s)
  {
    forall i: nat | |s.popped| <= i < s.post ensures Flagged(c, s, i) && SlotOf(c, s, i).msg == s.claimed[i] {
      assert !Pending(s, i);
    }
  }

  // ---------------------------------------------------------------------
  // Three threads between the test and the claim are too many.

  lemma {:induction false} RunMore(c: Config, threads: nat, k: nat, actions: seq<Action>, s: State, a: Action)
    requires ConfigOk(c) && Run(c, threads, k, actions, s)
    requires Shape(c, s) && Enabled(c, s, a) && Racing(Step(c, s, a).producers) <= k
    ensures Run(c, threads, k, actions + [a], Step(c, s, a))
  {
    var all := actions + [a];
    assert all[..|all| - 1] == actions;
    assert RunStep(c, threads, k, all, s, Step(c, s, a));
  }

  lemma {:induction false} RunLooser(c: Config, threads: nat, k: nat, l: nat, actions: seq<Action>, s: State)
    requires ConfigOk(c) && k <= l && Run(c, threads, k, actions, s)
    ensures Run(c, threads, l, actions, s)
    decreases |actions|
  {
    if actions != [] {
      var before :| RunStep(c, threads, k, actions, before, s);
      RunLooser(c, threads, k, l, actions[..|actions| - 1], before);
      assert RunStep(c, threads, l, actions, before, s);
    }
  }

  const TINY := Config(1, 2)

  function Tiny(post: nat, slot: Slot, producers: seq<Producer>, consumer: Consumer, claimed: seq<int>, popped: seq<int>): State {
    State(post, 0, [0, NONE], map[0 := Page(0, [slot])], 1, NONE, producers, consumer, claimed, popped)
  }

  lemma {:induction false} Next(actions: seq<Action>, s: State, a: Action, s': State) returns (actions': seq<Action>)
    requires Run(TINY, 3, 3, actions, s) && Shape(TINY, s) && Enabled(TINY, s, a) && |s'.producers| == 3 && s' == Step(TINY, s, a)
    ensures actions' == actions + [a] && Run(TINY, 3, 3, actions', s')
  {
    actions' := actions + [a];
    RacingAtMost(s'.producers);
    RunMore(TINY, 3, 3, actions, s, a);
  }

  lemma {:induction false} RacingAtMost(ps: seq<Producer>)
    ensures Racing(ps) <= |ps|
    decreases |ps|
  {
    if ps != [] { RacingAtMost(ps[..|ps| - 1]); }
  }

  const EMPTY := Slot(0, false)
  const FILLED := Slot(12, true)

  // Threads 0, 1 and 2 all find the queue empty.
  lemma {:induction false} ThreeTest() returns (actions: seq<Action>)
    ensures Run(TINY, 3, 3, actions, Tiny(0, EMPTY, [Tested(10), Tested(11), Tested(12)], Resting, [], []))
  {
    var s0 := Tiny(0, EMPTY, [Idle, Idle, Idle], Resting, [], []);
    assert Init(TINY, 3) == s0 by {
      assert Init(TINY, 3).ring == [0, NONE] && EmptyPage(TINY, 0).slots == [EMPTY];
    }
    var s1 := Tiny(0, EMPTY, [Tested(10), Idle, Idle], Resting, [], []);
    actions := Next([], s0, Test(0, 10), s1);
    var s2 := Tiny(0, EMPTY, [Tested(10), Tested(11), Idle], Resting, [], []);
    actions := Next(actions, s1, Test(1, 11), s2);
    var s3 := Tiny(0, EMPTY, [Tested(10), Tested(11), Tested(12)], Resting, [], []);
    actions := Next(actions, s2, Test(2, 12), s3);
  }

  // All three claim.
  lemma {:induction false} ThreeClaim() returns (actions: seq<Action>)
    ensures Run(TINY, 3, 3, actions, Tiny(3, EMPTY, [Getting(10, 0, Check), Getting(11, 1, Check), Getting(12, 2, Check)], Resting, [10, 11, 12], []))
  {
    actions := ThreeTest();
    var s0 := Tiny(0, EMPTY, [Tested(10), Tested(11), Tested(12)], Resting, [], []);
    var s1 := Tiny(1, EMPTY, [Getting(10, 0, Check), Tested(11), Tested(12)], Resting, [10], []);
    actions := Next(actions, s0, Claim(0), s1);
    var s2 := Tiny(2, EMPTY, [Getting(10, 0, Check), Getting(11, 1, Check), Tested(12)], Resting, [10, 11], []);
    actions := Next(actions, s1, Claim(1), s2);
    var s3 := Tiny(3, EMPTY, [Getting(10, 0, Check), Getting(11, 1, Check), Getting(12, 2, Check)], Resting, [10, 11, 12], []);
    actions := Next(actions, s2, Claim(2), s3);
  }

  // With two pages of one message, index 2 has the page of index 0.
  function Third(slot: Slot, q: Producer, k: Consumer, popped: seq<int>): State {
    Tiny(3, slot, [Getting(10, 0, Check), Getting(11, 1, Check), q], k, [10, 11, 12], popped)
  }

  lemma {:induction false} ThirdFetches() returns (actions: seq<Action>)
    ensures Run(TINY, 3, 3, actions, Third(EMPTY, Writing(12, 2, 0), Resting, []))
  {
    actions := ThreeClaim();
    actions := Next(actions, Third(EMPTY, Getting(12, 2, Check), Resting, []), GetPage(2), Third(EMPTY, Getting(12, 2, Fetch), Resting, []));
    actions := Next(actions, Third(EMPTY, Getting(12, 2, Fetch), Resting, []), GetPage(2), Third(EMPTY, Writing(12, 2, 0), Resting, []));
  }

  lemma {:induction false} ThirdWrites() returns (actions: seq<Action>)
    ensures Run(TINY, 3, 3, actions, Third(FILLED, Idle, Resting, []))
  {
    actions := ThirdFetches();
    assert OffsetOf(TINY, 1) == 0 && OffsetOf(TINY, 2) == 0;
    var x := Slot(12, false);
    assert [EMPTY][0 := x] == [x] && [x][0 := FILLED] == [FILLED];
    assert map[0 := Page(0, [EMPTY])][0 := Page(0, [x])] == map[0 := Page(0, [x])];
    assert map[0 := Page(0, [x])][0 := Page(0, [FILLED])] == map[0 := Page(0, [FILLED])];
    var s := Third(x, Flagging(12, 2, 0), Resting, []);
    actions := Next(actions, Third(EMPTY, Writing(12, 2, 0), Resting, []), Write(2), s);
    actions := Next(actions, s, SetFlag(2), Third(FILLED, Idle, Resting, []));
  }

  lemma {:induction false} ConsumerFetches() returns (actions: seq<Action>)
    ensures Run(TINY, 3, 3, actions, Third(FILLED, Idle, Looking(0), []))
  {
    actions := ThirdWrites();
    actions := Next(actions, Third(FILLED, Idle, Resting, []), PopTest, Third(FILLED, Idle, Popping(Check), []));
    actions := Next(actions, Third(FILLED, Idle, Popping(Check), []), PopGetPage, Third(FILLED, Idle, Popping(Fetch), []));
    actions := Next(actions, Third(FILLED, Idle, Popping(Fetch), []), PopGetPage, Third(FILLED, Idle, Looking(0), []));
  }

  // What thread 2 wrote is popped in place of what thread 0 pushed.
  lemma {:induction false} Overrun() returns (actions: seq<Action>, s: State)
    ensures Run(TINY, 3, 3, actions, s) && s.claimed == [10, 11, 12] && s.popped == [12]
  {
    actions := ConsumerFetches();
    s := Third(FILLED, Idle, Deleting(0), [12]);
    actions := Next(actions, Third(FILLED, Idle, Looking(0), []), PopLook, s);
  }

  // ---------------------------------------------------------------------
  // The same for every configuration: three threads, one page too many.

  lemma RacingThree(ps: seq<Producer>)
    requires |ps| == 3 && !ps[1].Tested? && !ps[2].Tested?
    ensures Racing(ps) <= 1
  {
    assert ps[..2][..1] == ps[..1] && ps[..1][..0] == [];
    assert Racing(ps[..1]) <= 1 && Racing(ps[..2]) == Racing(ps[..1]);
  }

  // Thread 0 works alone, the consumer rests or works.
  ghost predicate Alone(c: Config, actions: seq<Action>, s: State)
    requires ConfigOk(c)
  {
    Run(c, 3, 1, actions, s) && |s.producers| == 3 && s.producers[1].Idle? && s.producers[2].Idle? && s.mutex == NONE
  }

  ghost predicate Quiet(c: Config, actions: seq<Action>, s: State)
    requires ConfigOk(c)
  {
    Alone(c, actions, s) && s.producers[0].Idle? && s.consumer.Resting?
  }

  // Thread 0 is between its claim and its last store.
  ghost predicate Pushing(s: State, post: nat, get: nat, q: Producer)
  {
    |s.producers| == 3 && s.producers[0] == q && s.producers[1].Idle? && s.producers[2].Idle? && s.post == post && s.get == get && s.consumer.Resting?
  }

  // One more step of thread 0 or of the consumer.
  lemma {:induction false} Onward(c: Config, actions: seq<Action>, s: State, a: Action) returns (actions': seq<Action>, s': State)
    requires ConfigOk(c) && Run(c, 3, 1, actions, s) && Shape(c, s) && Enabled(c, s, a)
    requires |Step(c, s, a).producers| == 3 && !Step(c, s, a).producers[1].Tested? && !Step(c, s, a).producers[2].Tested?
    ensures actions' == actions + [a] && s' == Step(c, s, a) && Run(c, 3, 1, actions', s') && Inv(c, s')
  {
    actions', s' := actions + [a], Step(c, s, a);
    RacingThree(s'.producers);
    RunMore(c, 3, 1, actions, s, a);
    RunInv(c, 3, 1, actions', s');
  }

  lemma {:induction false} GetsPage(c: Config, actions0: seq<Action>, s0: State, m: int, i: nat) returns (actions: seq<Action>, s: State, page: int)
    requires ConfigOk(c) && Inv(c, s0) && Alone(c, actions0, s0) && Pushing(s0, s0.post, s0.get, Getting(m, i, Check))
    ensures Inv(c, s) && Alone(c, actions, s) && Pushing(s, s0.post, s0.get, Writing(m, i, page))
  {
    actions, s := Onward(c, actions0, s0, GetPage(0));
    if s.producers[0].at == Wait {
      actions, s := Onward(c, actions, s, GetPage(0));
      actions, s := Onward(c, actions, s, GetPage(0));
      if s.producers[0].at == Alloc { actions, s := Onward(c, actions, s, GetPage(0)); }
    }
    assert s.producers[0] == Getting(m, i, Fetch) && s.mutex == NONE;
    page := s.ring[Position(c, i)];
    actions, s := Onward(c, actions, s, GetPage(0));
  }

  lemma {:induction false} PushOne(c: Config, actions0: seq<Action>, s0: State, m: int) returns (actions: seq<Action>, s: State)
    requires ConfigOk(c) && Inv(c, s0) && Quiet(c, actions0, s0) && !FullTest(c, s0)
    ensures Inv(c, s) && Quiet(c, actions, s) && s.post == s0.post + 1 && s.get == s0.get
  {
    actions, s := Onward(c, actions0, s0, Test(0, m));
    actions, s := Onward(c, actions, s, Claim(0));
    var page;
    actions, s, page := GetsPage(c, actions, s, m, s0.post);
    actions, s := Stores(c, actions, s, m, s0.post, page);
  }

  lemma {:induction false} Stores(c: Config, actions0: seq<Action>, s0: State, m: int, i: nat, page: int) returns (actions: seq<Action>, s: State)
    requires ConfigOk(c) && Inv(c, s0) && Alone(c, actions0, s0) && Pushing(s0, s0.post, s0.get, Writing(m, i, page))
    ensures Inv(c, s) && Quiet(c, actions, s) && s.post == s0.post && s.get == s0.get
  {
    assert ProducerOk(c, s0, 0);
    actions, s := Onward(c, actions0, s0, Write(0));
    assert ProducerOk(c, s, 0);
    actions, s := Onward(c, actions, s, SetFlag(0));
  }

  // Up to the look at the slot of the next index, whose page is there.
  lemma {:induction false} ConsumerLooks(c: Config, actions0: seq<Action>, s0: State) returns (actions: seq<Action>, s: State)
    requires ConfigOk(c) && Inv(c, s0) && Quiet(c, actions0, s0) && s0.get < s0.post
    ensures Inv(c, s) && Alone(c, actions, s) && s == s0.(consumer := Looking(s0.ring[Position(c, s0.get)]))
    ensures Flagged(c, s, s.get)
  {
    QuietIsReady(c, s0);
    assert Flagged(c, s0, s0.get);
    actions, s := Onward(c, actions0, s0, PopTest);
    actions, s := Onward(c, actions, s, PopGetPage);
    actions, s := Onward(c, actions, s, PopGetPage);
  }

  lemma {:induction false} PopOne(c: Config, actions0: seq<Action>, s0: State) returns (actions: seq<Action>, s: State)
    requires ConfigOk(c) && Inv(c, s0) && Quiet(c, actions0, s0) && s0.get < s0.post && OffsetOf(c, s0.get) != c.p - 1
    ensures Inv(c, s) && Quiet(c, actions, s) && s.post == s0.post && s.get == s0.get + 1
  {
    actions, s := ConsumerLooks(c, actions0, s0);
    actions, s := Onward(c, actions, s, PopLook);
    actions, s := Onward(c, actions, s, PopCount);
  }

  lemma {:induction false} BelowPage(c: Config, x: nat, m: nat)
    requires ConfigOk(c) && x < m * c.p
    ensures PageOf(c, x) < m
    decreases x
  {
    if c.p <= x {
      assert (m - 1) * c.p == m * c.p - c.p;
      BelowPage(c, x - c.p, m - 1);
    }
  }

  lemma {:induction false} PushMany(c: Config, actions0: seq<Action>, s0: State, post: nat) returns (actions: seq<Action>, s: State)
    requires ConfigOk(c) && Inv(c, s0) && Quiet(c, actions0, s0) && s0.post <= post <= s0.get + Bound(c)
    ensures Inv(c, s) && Quiet(c, actions, s) && s.post == post && s.get == s0.get
    decreases post - s0.post
  {
    actions, s := actions0, s0;
    if s0.post < post {
      BelowPage(c, s0.post - s0.get, c.n - 1);
      actions, s := PushOne(c, actions0, s0, 0);
      actions, s := PushMany(c, actions, s, post);
    }
  }

  lemma {:induction false} PopMany(c: Config, actions0: seq<Action>, s0: State, get: nat) returns (actions: seq<Action>, s: State)
    requires ConfigOk(c) && Inv(c, s0) && Quiet(c, actions0, s0) && s0.get <= get <= s0.post && get < c.p
    ensures Inv(c, s) && Quiet(c, actions, s) && s.post == s0.post && s.get == get
    decreases get - s0.get
  {
    actions, s := actions0, s0;
    if s0.get < get {
      actions, s := PopOne(c, actions0, s0);
      actions, s := PopMany(c, actions, s, get);
    }
  }

  // The consumer is at the last slot of the first page, and one message more fits.
  lemma {:induction false} AlmostFull(c: Config) returns (actions: seq<Action>, s: State)
    requires ConfigOk(c) && 2 <= Bound(c)
    ensures Inv(c, s) && Quiet(c, actions, s) && s.get == c.p - 1 && s.post == c.p - 1 + Bound(c) - 1 && s.get < s.post
  {
    actions, s := [], Init(c, 3);
    InitInv(c, 3);
    assert 1 * c.p <= (c.n - 1) * c.p;
    actions, s := PushMany(c, actions, s, c.p - 1);
    actions, s := PopMany(c, actions, s, c.p - 1);
    actions, s := PushMany(c, actions, s, c.p - 1 + Bound(c) - 1);
  }

  lemma {:induction false} OnwardThree(c: Config, actions: seq<Action>, s: State, a: Action) returns (actions': seq<Action>, s': State)
    requires ConfigOk(c) && Run(c, 3, 3, actions, s) && Shape(c, s) && Enabled(c, s, a) && |Step(c, s, a).producers| == 3
    ensures actions' == actions + [a] && s' == Step(c, s, a) && Run(c, 3, 3, actions', s')
  {
    actions', s' := actions + [a], Step(c, s, a);
    RacingAtMost(s'.producers);
    RunMore(c, 3, 3, actions, s, a);
  }

  lemma {:induction false} OneTests(c: Config, actions0: seq<Action>, s0: State, t: nat, m: int) returns (actions: seq<Action>, s: State)
    requires ConfigOk(c) && Run(c, 3, 3, actions0, s0) && Shape(c, s0) && !FullTest(c, s0)
    requires t < |s0.producers| == 3 && s0.producers[t].Idle?
    ensures s == s0.(producers := s0.producers[t := Tested(m)]) && Run(c, 3, 3, actions, s) && Shape(c, s) && !FullTest(c, s)
  {
    actions, s := OnwardThree(c, actions0, s0, Test(t, m));
  }

  // Three threads test, where there is room for one message.
  lemma {:induction false} AllTest(c: Config, actions0: seq<Action>, s0: State) returns (actions: seq<Action>, s: State)
    requires ConfigOk(c) && Inv(c, s0) && Quiet(c, actions0, s0) && !FullTest(c, s0)
    ensures s == s0.(producers := [Tested(10), Tested(11), Tested(12)]) && Run(c, 3, 3, actions, s) && Shape(c, s)
  {
    RunLooser(c, 3, 1, 3, actions0, s0);
    actions, s := OneTests(c, actions0, s0, 0, 10);
    actions, s := OneTests(c, actions, s, 1, 11);
    actions, s := OneTests(c, actions, s, 2, 12);
    assert s.producers == [Tested(10), Tested(11), Tested(12)];
  }

  // All three claim.
  lemma {:induction false} AllClaim(c: Config, actions0: seq<Action>, s0: State) returns (actions: seq<Action>, s: State)
    requires ConfigOk(c) && Shape(c, s0) && Run(c, 3, 3, actions0, s0) && s0.producers == [Tested(10), Tested(11), Tested(12)]
    ensures Run(c, 3, 3, actions, s)
    ensures s == s0.(post := s0.post + 3, claimed := s0.claimed + [10, 11, 12],
                     producers := [Getting(10, s0.post, Check), Getting(11, s0.post + 1, Check), Getting(12, s0.post + 2, Check)])
  {
    var i := s0.post;
    var s1 := s0.(post := i + 1, claimed := s0.claimed + [10], producers := [Getting(10, i, Check), Tested(11), Tested(12)]);
    var s2 := s0.(post := i + 2, claimed := s0.claimed + [10, 11], producers := [Getting(10, i, Check), Getting(11, i + 1, Check), Tested(12)]);
    actions, s := OnwardThree(c, actions0, s0, Claim(0));
    assert s == s1;
    assert s1.claimed + [11] == s2.claimed;
    actions, s := OnwardThree(c, actions, s1, Claim(1));
    assert s == s2;
    assert s2.claimed + [12] == s0.claimed + [10, 11, 12];
    actions, s := OnwardThree(c, actions, s2, Claim(2));
  }

  // A page of the ring's size behind another has its place.
  lemma {:induction false} NextRound(c: Config)
    requires ConfigOk(c)
    ensures PageOf(c, c.n * c.p) == c.n && Position(c, c.n * c.p) == Position(c, c.p - 1) == 0 && OffsetOf(c, c.p - 1) == c.p - 1
  {
    PageShift(c, 0, c.n);
    assert RingOf(c, c.n) == RingOf(c, 0) == 0;
  }

  // All have claimed; the index of the third falls on the page the consumer is at the end of.
  lemma {:induction false} AllHaveClaimed(c: Config) returns (actions: seq<Action>, s: State)
    requires ConfigOk(c) && 2 <= Bound(c)
    ensures Run(c, 3, 3, actions, s) && Shape(c, s) && |s.producers| == 3 && s.consumer.Resting? && s.get < s.post && s.get == c.p - 1
    ensures s.producers[2] == Getting(12, c.n * c.p, Check) && s.ring[Position(c, s.get)] != NONE && Flagged(c, s, s.get)
  {
    var s0;
    actions, s0 := AlmostFull(c);
    assert c.n * c.p == s0.post + 2 by { assert c.n * c.p == (c.n - 1) * c.p + c.p; }
    QuietIsReady(c, s0);
    assert Flagged(c, s0, s0.get) && PageInv(c, s0);
    BelowPage(c, s0.post - s0.get, c.n - 1);
    actions, s := AllTest(c, actions, s0);
    actions, s := AllClaim(c, actions, s);
  }

  lemma {:induction false} ThirdHolds(c: Config) returns (actions: seq<Action>, s: State)
    requires ConfigOk(c) && 2 <= Bound(c)
    ensures Run(c, 3, 3, actions, s) && Shape(c, s) && |s.producers| == 3 && s.consumer.Resting? && s.get < s.post && s.get == c.p - 1
    ensures s.producers[2].Writing? && s.producers[2].page == s.ring[0] && s.ring[0] != NONE && Flagged(c, s, s.get)
  {
    NextRound(c);
    actions, s := AllHaveClaimed(c);
    actions, s := OnwardThree(c, actions, s, GetPage(2));
    actions, s := OnwardThree(c, actions, s, GetPage(2));
  }

  // And the consumer frees it.
  lemma {:induction false} FreedUnderneath(c: Config) returns (actions: seq<Action>, s: State)
    requires ConfigOk(c) && 2 <= Bound(c)
    ensures Run(c, 3, 3, actions, s) && |s.producers| == 3 && s.producers[2].Writing? && s.producers[2].page !in s.pages
  {
    actions, s := ThirdHolds(c);
    NextRound(c);
    actions, s := OnwardThree(c, actions, s, PopTest);
    actions, s := OnwardThree(c, actions, s, PopGetPage);
    actions, s := OnwardThree(c, actions, s, PopGetPage);
    actions, s := OnwardThree(c, actions, s, PopLook);
    actions, s := OnwardThree(c, actions, s, PopDelete);
  }

  // First in, first out; no freed page in anyone's hands; live pages apart; nothing lost.
  ghost predicate Safe(c: Config, s: State)
    requires ConfigOk(c)
  {
    && s.popped <= s.claimed && MemorySafe(c, s) && RingSuffices(c, s)
    && ((forall t :: 0 <= t < |s.producers| ==> s.producers[t].Idle?) ==> AllReady(c, s))
  }

  /** For every configuration: every run is safe exactly when at most two threads race. */
  lemma {:induction false} RaceLimit(c: Config, k: nat)
    requires ConfigOk(c)
    ensures k <= 2 <==> forall threads, actions, s :: Run(c, threads, k, actions, s) ==> Safe(c, s)
  {
    if k <= 2 {
      forall threads, actions, s | Run(c, threads, k, actions, s) ensures Safe(c, s) {
        RunLooser(c, threads, k, 2, actions, s);
        QueueIsSafe(c, threads, actions, s);
      }
    } else {
      var actions, s := Unsafe(c);
      RunLooser(c, 3, 3, k, actions, s);
      assert Run(c, 3, k, actions, s) && !Safe(c, s);
    }
  }

  lemma SmallBound(c: Config)
    requires ConfigOk(c) && Bound(c) < 2
    ensures c == TINY
  {
    Arithmetic.Scaled(c.p, c.n - 1);
    Arithmetic.Scaled(c.n - 1, c.p);
  }

  lemma {:induction false} Unsafe(c: Config) returns (actions: seq<Action>, s: State)
    requires ConfigOk(c)
    ensures Run(c, 3, 3, actions, s) && !Safe(c, s)
  {
    if Bound(c) < 2 {
      SmallBound(c);
      actions, s := Overrun();
      assert s.popped[0] != s.claimed[0];
    } else {
      actions, s := FreedUnderneath(c);
      assert !MemorySafe(c, s);
    }
  }

  /** Over all configurations, even the order of the messages holds exactly then: with pages
      of one message a third thread writes where a message waits. */
  lemma {:induction false} OrderLimit(k: nat)
    ensures k <= 2 <==> forall c, threads, actions, s :: ConfigOk(c) && Run(c, threads, k, actions, s) ==> s.popped <= s.claimed
  {
    if k <= 2 {
      forall c, threads, actions, s | ConfigOk(c) && Run(c, threads, k, actions, s) ensures s.popped <= s.claimed {
        RunInv(c, threads, k, actions, s);
      }
    } else {
      var actions, s := Overrun();
      RunLooser(TINY, 3, 3, k, actions, s);
      assert Run(TINY, 3, k, actions, s) && s.popped[0] != s.claimed[0];
    }
  }
}
