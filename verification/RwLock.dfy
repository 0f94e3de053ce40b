/** lock.cpp, rwlock as built with _MSC_VER: a readers/writer lock made of a
    critical section, a manual-reset event and a semaphore of at most one permit.

    Every thread is somewhere in lock_read, unlock_read, lock_write or
    unlock_write.  A critical section is one step; waking up, setting the event
    and releasing the semaphore after it are steps of their own. */
module RwLocks {

  datatype Thread =
    | Out
    | ReadWaiting      // lock_read: outside the section, waiting for the event
    | ReadWoken        // lock_read: the event was set, about to enter the section
    | ReadNotify       // lock_read: has the lock, about to set the event
    | Reading
    | WriteWaiting     // lock_write: waiting for the semaphore
    | Writing
    | WriteRelease     // unlock_write: has passed the lock on, about to release the semaphore
    | WriteNotify      // unlock_write: has freed the lock, about to set the event

  // word is activeWriterReaders_: readers in the low half, writer flag in the high half.
  datatype State = State(writersWaiting: int, readersWaiting: int, word: int, event: bool, permits: int, threads: seq<Thread>)

  const HALF := 0x1_0000

  function High(word: int): int { word / HALF }

  function Low(word: int): int { word % HALF }

  function Init(n: nat): State {
    State(0, 0, 0, false, 0, seq(n, _ => Out))
  }

  datatype Action = LockRead(t: nat) | WakeRead(t: nat) | RetryRead(t: nat) | NotifyRead(t: nat) | UnlockRead(t: nat)
                  | LockWrite(t: nat) | WakeWrite(t: nat) | UnlockWrite(t: nat) | ReleaseWrite(t: nat) | NotifyWrite(t: nat)

  // Where the thread of an action stands.
  function Stand(a: Action): Thread {
    match a
    case LockRead(_) => Out
    case WakeRead(_) => ReadWaiting
    case RetryRead(_) => ReadWoken
    case NotifyRead(_) => ReadNotify
    case UnlockRead(_) => Reading
    case LockWrite(_) => Out
    case WakeWrite(_) => WriteWaiting
    case UnlockWrite(_) => Writing
    case ReleaseWrite(_) => WriteRelease
    case NotifyWrite(_) => WriteNotify
  }

  predicate Enabled(s: State, a: Action) {
    && a.t < |s.threads| && s.threads[a.t] == Stand(a)
    && (a.WakeRead? ==> s.event)
    && (a.WakeWrite? ==> 0 < s.permits)
  }

  function To(s: State, t: nat, q: Thread): State
    requires t < |s.threads|
  {
    s.(threads := s.threads[t := q])
  }

  function Step(s: State, a: Action): State
    requires Enabled(s, a)
  {
    match a
    case LockRead(t) =>
      if s.writersWaiting > 0 || High(s.word) > 0 then
        To(s.(readersWaiting := s.readersWaiting + 1, event := false), t, ReadWaiting)
      else
        To(s.(word := s.word + 1), t, if s.word + 1 == 1 && s.readersWaiting != 0 then ReadNotify else Reading)
    case WakeRead(t) => To(s, t, ReadWoken)
    case RetryRead(t) =>
      if s.writersWaiting == 0 && High(s.word) == 0 then
        To(s.(readersWaiting := s.readersWaiting - 1, word := s.word + 1), t, Reading)
      else
        To(s.(event := false), t, ReadWaiting)
    case NotifyRead(t) => To(s.(event := true), t, Reading)
    case UnlockRead(t) =>
      var word := s.word - 1;
      var event := if word == 0 then false else s.event;
      if s.writersWaiting != 0 && word == 0 then
        To(s.(writersWaiting := s.writersWaiting - 1, word := HALF, event := event, permits := s.permits + 1), t, Out)
      else
        To(s.(word := word, event := event), t, Out)
    case LockWrite(t) =>
      if s.word != 0 then To(s.(writersWaiting := s.writersWaiting + 1), t, WriteWaiting)
      else To(s.(word := HALF), t, Writing)
    case WakeWrite(t) => To(s.(permits := s.permits - 1), t, Writing)
    case UnlockWrite(t) =>
      if s.writersWaiting != 0 then To(s.(writersWaiting := s.writersWaiting - 1), t, WriteRelease)
      else To(s.(word := 0), t, if s.readersWaiting != 0 then WriteNotify else Out)
    case ReleaseWrite(t) => To(s.(permits := s.permits + 1), t, Out)
    case NotifyWrite(t) => To(s.(event := true), t, Out)
  }

  // The assertions in the source that a step passes, and the limit of the semaphore.
  predicate Asserts(s: State, a: Action)
    requires Enabled(s, a)
  {
    var s' := Step(s, a);
    match a
    case LockRead(_) => if s'.threads[a.t] == ReadWaiting then s'.readersWaiting > 0 else High(s'.word) == 0
    case RetryRead(_) => s'.threads[a.t] == Reading ==> s'.readersWaiting >= 0 && High(s'.word) == 0
    case UnlockRead(_) => High(s.word) == 0 && s.word > 0 && s'.permits <= 1
    case LockWrite(_) => s'.threads[a.t] == WriteWaiting ==> s'.writersWaiting > 0
    case UnlockWrite(_) => High(s.word) == 1 && Low(s.word) == 0
    case ReleaseWrite(_) => s'.permits <= 1
    case _ => true
  }

  // ---------------------------------------------------------------------
  // The invariant.

  ghost function Count(ts: seq<Thread>, q: Thread): nat {
    multiset(ts)[q]
  }

  // Threads that have the lock for reading.
  ghost function Readers(s: State): nat {
    Count(s.threads, Reading) + Count(s.threads, ReadNotify)
  }

  // Permits, releases under way and active writers.
  ghost function Owners(s: State): int {
    s.permits + Count(s.threads, WriteRelease) + Count(s.threads, Writing)
  }

  ghost predicate Inv(s: State) {
    && 0 <= s.permits && 0 <= s.writersWaiting
    && s.word == Readers(s) + HALF * Owners(s)
    && Owners(s) <= 1 && (Owners(s) == 1 ==> Readers(s) == 0)
    && s.writersWaiting + s.permits + Count(s.threads, WriteRelease) == Count(s.threads, WriteWaiting)
    && s.readersWaiting == Count(s.threads, ReadWaiting) + Count(s.threads, ReadWoken)
    && (s.writersWaiting > 0 ==> s.word != 0)
  }

  lemma {:induction false} Halves(s: State)
    requires Inv(s) && Readers(s) < HALF
    ensures High(s.word) == Owners(s) && Low(s.word) == Readers(s)
  {
  }

  lemma {:induction false} InitInv(n: nat)
    ensures Inv(Init(n)) && Readers(Init(n)) == 0
  {
    forall q | q != Out ensures Count(Init(n).threads, q) == 0 {
      assert q !in Init(n).threads;
    }
  }

  // One thread moves: how often each place is taken afterwards.
  lemma {:induction false} Moves(ts: seq<Thread>, t: nat, q: Thread)
    requires t < |ts|
    ensures forall x :: Count(ts[t := q], x) == Count(ts, x) - (if x == ts[t] then 1 else 0) + (if x == q then 1 else 0)
    ensures 1 <= Count(ts, ts[t])
  {
    assert ts[t] in multiset(ts);
    assert multiset(ts[t := q]) == multiset(ts) - multiset{ts[t]} + multiset{q};
  }

  // ---------------------------------------------------------------------
  // Each step keeps the invariant and passes its assertions.  Fewer than 65536
  // readers are assumed before and after.

  ghost predicate Good(s: State, a: Action)
    requires Enabled(s, a)
  {
    Inv(Step(s, a)) && Asserts(s, a)
  }

  ghost predicate Fits(s: State, a: Action) {
    Inv(s) && Enabled(s, a) && Readers(s) < HALF && Readers(Step(s, a)) < HALF
  }

  lemma {:induction false} LockReadOk(s: State, t: nat)
    requires Fits(s, LockRead(t))
    ensures Good(s, LockRead(t))
  {
    Halves(s);
    LockReadKeeps(s, t);
  }

  lemma {:induction false} LockReadKeeps(s: State, t: nat)
    requires Fits(s, LockRead(t))
    ensures Inv(Step(s, LockRead(t)))
  {
    Halves(s);
    Moves(s.threads, t, Step(s, LockRead(t)).threads[t]);
  }

  lemma {:induction false} WakeReadOk(s: State, t: nat)
    requires Fits(s, WakeRead(t))
    ensures Good(s, WakeRead(t))
  {
    Moves(s.threads, t, ReadWoken);
  }

  lemma {:induction false} RetryReadOk(s: State, t: nat)
    requires Fits(s, RetryRead(t))
    ensures Good(s, RetryRead(t))
  {
    Halves(s);
    Moves(s.threads, t, Step(s, RetryRead(t)).threads[t]);
  }

  lemma {:induction false} NotifyReadOk(s: State, t: nat)
    requires Fits(s, NotifyRead(t))
    ensures Good(s, NotifyRead(t))
  {
    Moves(s.threads, t, Reading);
  }

  lemma {:induction false} UnlockReadOk(s: State, t: nat)
    requires Fits(s, UnlockRead(t))
    ensures Good(s, UnlockRead(t))
  {
    Halves(s);
    Moves(s.threads, t, Out);
  }

  lemma {:induction false} LockWriteOk(s: State, t: nat)
    requires Fits(s, LockWrite(t))
    ensures Good(s, LockWrite(t))
  {
    Halves(s);
    Moves(s.threads, t, Step(s, LockWrite(t)).threads[t]);
  }

  lemma {:induction false} WakeWriteOk(s: State, t: nat)
    requires Fits(s, WakeWrite(t))
    ensures Good(s, WakeWrite(t))
  {
    Moves(s.threads, t, Writing);
  }

  lemma {:induction false} UnlockWriteOk(s: State, t: nat)
    requires Fits(s, UnlockWrite(t))
    ensures Good(s, UnlockWrite(t))
  {
    Moves(s.threads, t, Step(s, UnlockWrite(t)).threads[t]);
    Halves(s);
  }

  lemma {:induction false} ReleaseWriteOk(s: State, t: nat)
    requires Fits(s, ReleaseWrite(t))
    ensures Good(s, ReleaseWrite(t))
  {
    Moves(s.threads, t, Out);
  }

  lemma {:induction false} NotifyWriteOk(s: State, t: nat)
    requires Fits(s, NotifyWrite(t))
    ensures Good(s, NotifyWrite(t))
  {
    Moves(s.threads, t, Out);
  }

  lemma {:induction false} StepOk(s: State, a: Action)
    requires Fits(s, a)
    ensures Good(s, a)
  {
    match a
    case LockRead(t) => LockReadOk(s, t);
    case WakeRead(t) => WakeReadOk(s, t);
    case RetryRead(t) => RetryReadOk(s, t);
    case NotifyRead(t) => NotifyReadOk(s, t);
    case UnlockRead(t) => UnlockReadOk(s, t);
    case LockWrite(t) => LockWriteOk(s, t);
    case WakeWrite(t) => WakeWriteOk(s, t);
    case UnlockWrite(t) => UnlockWriteOk(s, t);
    case ReleaseWrite(t) => ReleaseWriteOk(s, t);
    case NotifyWrite(t) => NotifyWriteOk(s, t);
  }

  // ---------------------------------------------------------------------
  // All runs.

  // A run of n threads in which fewer than 65536 of them ever read at once.
  ghost predicate Run(n: nat, actions: seq<Action>, s: State)
    decreases |actions|
  {
    if actions == [] then s == Init(n)
    else exists before :: RunStep(n, actions, before, s)
  }

  ghost predicate RunStep(n: nat, actions: seq<Action>, before: State, s: State)
    requires actions != []
    decreases |actions|, 0
  {
    var a := actions[|actions| - 1];
    Run(n, actions[..|actions| - 1], before) && Enabled(before, a) && s == Step(before, a) && Readers(s) < HALF
  }

  lemma {:induction false} RunInv(n: nat, actions: seq<Action>, s: State)
    requires Run(n, actions, s)
    ensures Inv(s) && Readers(s) < HALF
    decreases |actions|
  {
    if actions == [] {
      InitInv(n);
    } else {
      var before :| RunStep(n, actions, before, s);
      RunInv(n, actions[..|actions| - 1], before);
      StepOk(before, actions[|actions| - 1]);
    }
  }

  predicate HasRead(q: Thread) {
    q == Reading || q == ReadNotify
  }

  lemma {:induction false} OneThread(ts: seq<Thread>, t: nat)
    requires t < |ts|
    ensures 1 <= Count(ts, ts[t])
  {
    assert ts[t] in multiset(ts);
  }

  lemma {:induction false} TwoThreads(ts: seq<Thread>, t: nat, u: nat)
    requires t < |ts| && u < |ts| && t != u && ts[t] == ts[u]
    ensures 2 <= Count(ts, ts[t])
  {
    var x := ts[t];
    var i, j := if t < u then t else u, if t < u then u else t;
    assert ts == ts[..i] + [x] + ts[i + 1..j] + [x] + ts[j + 1..];
    assert multiset(ts) == multiset(ts[..i]) + multiset{x} + multiset(ts[i + 1..j]) + multiset{x} + multiset(ts[j + 1..]);
  }

  /** In every run: a writer excludes every other thread; permits, releases under
      way and active writers together are the writer flag, so the semaphore never
      holds more than its one permit; writers wait only while the lock is taken
      or being passed on, and never when it is free. */
  lemma {:induction false} LockIsSafe(n: nat, actions: seq<Action>, s: State)
    requires Run(n, actions, s)
    ensures forall t, u :: 0 <= t < |s.threads| && 0 <= u < |s.threads| && t != u && s.threads[t] == Writing ==>
                             s.threads[u] != Writing && !HasRead(s.threads[u])
    ensures High(s.word) == Owners(s) <= 1 && s.permits <= 1 && Low(s.word) == Readers(s)
    ensures 0 < s.writersWaiting ==> 0 < Readers(s) + Owners(s)
    ensures Readers(s) == 0 && Owners(s) == 0 ==> Count(s.threads, WriteWaiting) == 0
  {
    RunInv(n, actions, s);
    Halves(s);
    forall t, u | 0 <= t < |s.threads| && 0 <= u < |s.threads| && t != u && s.threads[t] == Writing
      ensures s.threads[u] != Writing && !HasRead(s.threads[u])
    {
      OneThread(s.threads, t);
      OneThread(s.threads, u);
      if s.threads[u] == Writing { TwoThreads(s.threads, t, u); }
    }
  }

  /** And whatever step comes next: its assertions hold, and if it lets a reader
      in, no writer owns the lock and none is waiting. */
  lemma {:induction false} StepIsSafe(n: nat, actions: seq<Action>, s: State, a: Action)
    requires Run(n, actions, s) && Enabled(s, a) && Readers(Step(s, a)) < HALF
    ensures Asserts(s, a)
    ensures Readers(s) < Readers(Step(s, a)) ==> s.writersWaiting == 0 && Owners(s) == 0
  {
    RunInv(n, actions, s);
    StepOk(s, a);
    Halves(s);
    if Readers(s) < Readers(Step(s, a)) { EntersOnly(s, a); }
  }

  // Only a reader's own step, with no writer waiting, adds a reader.
  lemma {:induction false} EntersOnly(s: State, a: Action)
    requires Enabled(s, a) && Readers(s) < Readers(Step(s, a))
    ensures s.writersWaiting <= 0 && High(s.word) <= 0
  {
    Moves(s.threads, a.t, Step(s, a).threads[a.t]);
  }

  /** The limit is sharp: a step that can come next passes its assertions if and only if it
      does not make 65536 readers; one more and the word reads as owned by a writer. */
  lemma {:induction false} TooManyReaders(n: nat, actions: seq<Action>, s: State, a: Action)
    requires Run(n, actions, s) && Enabled(s, a)
    ensures Asserts(s, a) <==> Readers(Step(s, a)) < HALF
  {
    RunInv(n, actions, s);
    Halves(s);
    if Readers(Step(s, a)) < HALF { StepIsSafe(n, actions, s, a); } else { ReadersCount(s, a); }
  }

  lemma {:induction false} ReadersCount(s: State, a: Action)
    requires Inv(s) && Enabled(s, a) && Readers(s) < HALF <= Readers(Step(s, a))
    ensures !Asserts(s, a)
  {
    Halves(s);
    EntersOnly(s, a);
    Moves(s.threads, a.t, Step(s, a).threads[a.t]);
  }

  // The first k threads read, the others have done nothing yet.
  ghost predicate FirstRead(n: nat, k: nat, s: State) {
    && s.word == k && s.writersWaiting == 0 && s.readersWaiting == 0 && |s.threads| == n
    && forall t :: 0 <= t < n ==> s.threads[t] == if t < k then Reading else Out
  }

  lemma {:induction false} ManyReaders(n: nat, k: nat) returns (actions: seq<Action>, s: State)
    requires k <= n && k < HALF
    ensures Run(n, actions, s) && FirstRead(n, k, s) && Readers(s) == k
    decreases k
  {
    if k == 0 {
      actions, s := [], Init(n);
      InitInv(n);
    } else {
      var before;
      actions, before := ManyReaders(n, k - 1);
      s := Step(before, LockRead(k - 1));
      OneReads(n, k, before);
      var all := actions + [LockRead(k - 1)];
      assert all[..|all| - 1] == actions;
      assert RunStep(n, all, before, s);
      actions := all;
    }
  }

  lemma {:induction false} OneReads(n: nat, k: nat, s: State)
    requires 0 < k <= n && k < HALF && FirstRead(n, k - 1, s) && Readers(s) == k - 1
    ensures Enabled(s, LockRead(k - 1)) && FirstRead(n, k, Step(s, LockRead(k - 1))) && Readers(Step(s, LockRead(k - 1))) == k
  {
    Moves(s.threads, k - 1, Reading);
  }

  /** With 65536 threads the limit is reached: 65535 readers, and the next fails its assertion. */
  lemma {:induction false} LimitIsReached(n: nat) returns (actions: seq<Action>, s: State)
    requires HALF <= n
    ensures Run(n, actions, s) && Readers(s) == HALF - 1 && Enabled(s, LockRead(HALF - 1)) && !Asserts(s, LockRead(HALF - 1))
  {
    actions, s := ManyReaders(n, HALF - 1);
    RunInv(n, actions, s);
    Moves(s.threads, HALF - 1, Reading);
    TooManyReaders(n, actions, s, LockRead(HALF - 1));
  }

  // ---------------------------------------------------------------------
  // Who gets in, and who is told.

  ghost predicate Nobody(s: State, q: Thread) {
    forall t :: 0 <= t < |s.threads| ==> s.threads[t] != q
  }

  lemma {:induction false} NobodyCounts(s: State, q: Thread)
    ensures Nobody(s, q) <==> Count(s.threads, q) == 0
  {
    if !Nobody(s, q) {
      var t :| 0 <= t < |s.threads| && s.threads[t] == q;
      OneThread(s.threads, t);
    }
    if Count(s.threads, q) != 0 {
      assert q in multiset(s.threads);
      var t :| 0 <= t < |s.threads| && s.threads[t] == q;
    }
  }

  /** lock_read returns at once exactly if no writer has the lock, is being handed it or
      waits for it. */
  lemma {:induction false} ReaderEnters(n: nat, actions: seq<Action>, s: State, t: nat)
    requires Run(n, actions, s) && Enabled(s, LockRead(t))
    ensures HasRead(Step(s, LockRead(t)).threads[t]) <==> Nobody(s, Writing) && Nobody(s, WriteWaiting) && Nobody(s, WriteRelease)
  {
    RunInv(n, actions, s);
    Halves(s);
    NobodyCounts(s, Writing);
    NobodyCounts(s, WriteWaiting);
    NobodyCounts(s, WriteRelease);
  }

  /** lock_write returns at once exactly if nobody has the lock and it is handed to nobody. */
  lemma {:induction false} WriterEnters(n: nat, actions: seq<Action>, s: State, t: nat)
    requires Run(n, actions, s) && Enabled(s, LockWrite(t))
    ensures Step(s, LockWrite(t)).threads[t] == Writing
       <==> Nobody(s, Reading) && Nobody(s, ReadNotify) && Nobody(s, Writing) && Nobody(s, WriteRelease) && s.permits == 0
  {
    RunInv(n, actions, s);
    Halves(s);
    NobodyCounts(s, Reading);
    NobodyCounts(s, ReadNotify);
    NobodyCounts(s, Writing);
    NobodyCounts(s, WriteRelease);
  }

  /** Leaving for good: the last reader or the writer passes the lock on to a writer that
      waits, if one does; else a writer that leaves tells the readers that wait, and so does
      a reader that comes first. */
  lemma {:induction false} LockIsPassedOn(n: nat, actions: seq<Action>, s: State, t: nat)
    requires Run(n, actions, s)
    ensures Enabled(s, UnlockRead(t)) && Readers(s) == 1 && 0 < s.writersWaiting ==>
              Step(s, UnlockRead(t)).permits == 1 && Owners(Step(s, UnlockRead(t))) == 1
    ensures Enabled(s, UnlockWrite(t)) && 0 < s.writersWaiting ==> Step(s, UnlockWrite(t)).threads[t] == WriteRelease
    ensures Enabled(s, UnlockWrite(t)) && s.writersWaiting == 0 ==>
              (Step(s, UnlockWrite(t)).threads[t] == WriteNotify <==> !Nobody(s, ReadWaiting) || !Nobody(s, ReadWoken))
    ensures Enabled(s, LockRead(t)) && s.word == 0 && s.writersWaiting == 0 ==>
              (Step(s, LockRead(t)).threads[t] == ReadNotify <==> !Nobody(s, ReadWaiting) || !Nobody(s, ReadWoken))
  {
    RunInv(n, actions, s);
    Halves(s);
    NobodyCounts(s, ReadWaiting);
    NobodyCounts(s, ReadWoken);
    if Enabled(s, UnlockRead(t)) && Readers(s) == 1 && 0 < s.writersWaiting { LastReader(s, t); }
  }

  lemma {:induction false} LastReader(s: State, t: nat)
    requires Inv(s) && Enabled(s, UnlockRead(t)) && Readers(s) == 1 && 0 < s.writersWaiting
    ensures Step(s, UnlockRead(t)).permits == 1 && Owners(Step(s, UnlockRead(t))) == 1
  {
    Halves(s);
    Moves(s.threads, t, Out);
  }

  /** Telling them wakes every reader that waits. */
  lemma {:induction false} AllAreWoken(s: State, t: nat, u: nat)
    requires t != u && u < |s.threads| && s.threads[u] == ReadWaiting
    ensures Enabled(s, NotifyWrite(t)) ==> Enabled(Step(s, NotifyWrite(t)), WakeRead(u))
    ensures Enabled(s, NotifyRead(t)) ==> Enabled(Step(s, NotifyRead(t)), WakeRead(u))
  {
  }

  lemma {:induction false} CountsFit(ts: seq<Thread>)
    ensures Count(ts, Reading) + Count(ts, ReadNotify) <= |ts|
    decreases |ts|
  {
    if ts != [] {
      var rest, x := ts[..|ts| - 1], ts[|ts| - 1];
      assert ts == rest + [x];
      CountsFit(rest);
      assert multiset(ts) == multiset(rest) + multiset{x};
    }
  }

  // One more step of a run of few threads.
  lemma {:induction false} Onward(n: nat, actions: seq<Action>, s: State, a: Action, s': State)
    requires Run(n, actions, s) && Enabled(s, a) && s' == Step(s, a) && |s.threads| < HALF
    ensures Run(n, actions + [a], s')
  {
    var all := actions + [a];
    assert all[..|all| - 1] == actions;
    CountsFit(s'.threads);
    assert RunStep(n, all, s, s');
  }

  ghost predicate Leads(s: State, a: Action, s': State) {
    Enabled(s, a) && s' == Step(s, a) && |s.threads| < HALF
  }

  ghost predicate Path(n: nat, states: seq<State>, actions: seq<Action>) {
    && |states| == |actions| + 1 && states[0] == Init(n)
    && forall i :: 0 <= i < |actions| ==> Leads(states[i], actions[i], states[i + 1])
  }

  lemma {:induction false} PathIsRun(n: nat, states: seq<State>, actions: seq<Action>)
    requires Path(n, states, actions)
    ensures Run(n, actions, states[|actions|])
    decreases |actions|
  {
    if actions != [] {
      var k := |actions| - 1;
      PathIsRun(n, states[..k + 1], actions[..k]);
      Onward(n, actions[..k], states[k], actions[k], states[k + 1]);
      assert actions[..k] + [actions[k]] == actions;
    }
  }

  // Three threads.
  function Three(writers: int, readers: int, word: int, event: bool, x: Thread, y: Thread, z: Thread): State {
    State(writers, readers, word, event, 0, [x, y, z])
  }

  // The first writes, the two others come to read and have to wait.
  lemma {:induction false} TwoComeToWait()
    ensures Init(3) == Three(0, 0, 0, false, Out, Out, Out)
    ensures Leads(Three(0, 0, 0, false, Out, Out, Out), LockWrite(0), Three(0, 0, HALF, false, Writing, Out, Out))
    ensures Leads(Three(0, 0, HALF, false, Writing, Out, Out), LockRead(1), Three(0, 1, HALF, false, Writing, ReadWaiting, Out))
    ensures Leads(Three(0, 1, HALF, false, Writing, ReadWaiting, Out), LockRead(2), Three(0, 2, HALF, false, Writing, ReadWaiting, ReadWaiting))
    ensures Leads(Three(0, 2, HALF, false, Writing, ReadWaiting, ReadWaiting), UnlockWrite(0), Three(0, 2, 0, false, WriteNotify, ReadWaiting, ReadWaiting))
  {
  }

  // The event is set; one of them wakes, reads and leaves.
  lemma {:induction false} WokenAndGone()
    ensures Leads(Three(0, 2, 0, false, WriteNotify, ReadWaiting, ReadWaiting), NotifyWrite(0), Three(0, 2, 0, true, Out, ReadWaiting, ReadWaiting))
    ensures Leads(Three(0, 2, 0, true, Out, ReadWaiting, ReadWaiting), WakeRead(1), Three(0, 2, 0, true, Out, ReadWoken, ReadWaiting))
    ensures Leads(Three(0, 2, 0, true, Out, ReadWoken, ReadWaiting), RetryRead(1), Three(0, 1, 1, true, Out, Reading, ReadWaiting))
    ensures Leads(Three(0, 1, 1, true, Out, Reading, ReadWaiting), UnlockRead(1), Three(0, 1, 0, false, Out, Out, ReadWaiting))
  {
  }

  const FORGETTING: seq<Action> := [LockWrite(0), LockRead(1), LockRead(2), UnlockWrite(0), NotifyWrite(0), WakeRead(1), RetryRead(1), UnlockRead(1)]

  lemma {:induction false} ForgettingPath(states: seq<State>)
    requires states == [
      Three(0, 0, 0, false, Out, Out, Out), Three(0, 0, HALF, false, Writing, Out, Out), Three(0, 1, HALF, false, Writing, ReadWaiting, Out),
      Three(0, 2, HALF, false, Writing, ReadWaiting, ReadWaiting), Three(0, 2, 0, false, WriteNotify, ReadWaiting, ReadWaiting),
      Three(0, 2, 0, true, Out, ReadWaiting, ReadWaiting), Three(0, 2, 0, true, Out, ReadWoken, ReadWaiting),
      Three(0, 1, 1, true, Out, Reading, ReadWaiting), Three(0, 1, 0, false, Out, Out, ReadWaiting)]
    ensures Path(3, states, FORGETTING)
  {
    TwoComeToWait();
    WokenAndGone();
  }

  lemma {:induction false} OnlyNewcomers(s: State)
    requires s == Three(0, 1, 0, false, Out, Out, ReadWaiting)
    ensures forall a :: Enabled(s, a) ==> a.LockRead? || a.LockWrite?
  {
    forall a | Enabled(s, a) ensures a.LockRead? || a.LockWrite? { assert s.threads[a.t] == Stand(a); }
  }

  /** But a reader that is slow to wait can be forgotten: the event is reset by another that
      leaves.  The lock is free, nobody else is in it, and the reader waits on. */
  lemma {:induction false} ReaderForgotten(s: State)
    requires s == Three(0, 1, 0, false, Out, Out, ReadWaiting)
    ensures Run(3, FORGETTING, s) && forall a :: Enabled(s, a) ==> a.LockRead? || a.LockWrite?
  {
    var states := [
      Three(0, 0, 0, false, Out, Out, Out), Three(0, 0, HALF, false, Writing, Out, Out), Three(0, 1, HALF, false, Writing, ReadWaiting, Out),
      Three(0, 2, HALF, false, Writing, ReadWaiting, ReadWaiting), Three(0, 2, 0, false, WriteNotify, ReadWaiting, ReadWaiting),
      Three(0, 2, 0, true, Out, ReadWaiting, ReadWaiting), Three(0, 2, 0, true, Out, ReadWoken, ReadWaiting),
      Three(0, 1, 1, true, Out, Reading, ReadWaiting), Three(0, 1, 0, false, Out, Out, ReadWaiting)];
    ForgettingPath(states);
    PathIsRun(3, states, FORGETTING);
    OnlyNewcomers(s);
  }
}
