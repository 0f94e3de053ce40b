/** mqueue.h, srt_queue: what push refuses, and that pop gets everything out. */
module QueueDrains {
  import opened MessageQueues

  /** push is refused exactly if there are (n - 1) * p messages in the queue. */
  lemma {:induction false} RefusedExactly(c: Config, s: State, t: nat, m: int)
    requires ConfigOk(c) && Shape(c, s) && Enabled(c, s, Test(t, m))
    ensures Step(c, s, Test(t, m)).producers[t] == (if s.post - s.get < (c.n - 1) * c.p then Tested(m) else Idle)
  {
    FullFrom(c, s.post - s.get, c.n - 1);
  }

  lemma {:induction false} FullFrom(c: Config, x: nat, m: nat)
    requires ConfigOk(c)
    ensures PageOf(c, x) >= m <==> x >= m * c.p
    decreases x
  {
    if m == 0 {
    } else if c.p <= x {
      assert m * c.p == (m - 1) * c.p + c.p;
      FullFrom(c, x - c.p, m - 1);
    } else {
      assert m * c.p == (m - 1) * c.p + c.p;
    }
  }

  ghost predicate AllIdle(s: State) {
    forall t :: 0 <= t < |s.producers| ==> s.producers[t].Idle?
  }

  lemma {:induction false} NoneRaces(ps: seq<Producer>)
    requires forall t :: 0 <= t < |ps| ==> ps[t].Idle?
    ensures Racing(ps) == 0
    decreases |ps|
  {
    if ps != [] { NoneRaces(ps[..|ps| - 1]); }
  }

  // Nothing is under way.
  ghost predicate Still(c: Config, threads: nat, actions: seq<Action>, s: State)
    requires ConfigOk(c)
  {
    Run(c, threads, 2, actions, s) && Inv(c, s) && AllIdle(s)
  }

  lemma {:induction false} ConsumerGoes(c: Config, threads: nat, actions: seq<Action>, s: State, a: Action) returns (actions': seq<Action>, s': State)
    requires ConfigOk(c) && Still(c, threads, actions, s) && Enabled(c, s, a) && Step(c, s, a).producers == s.producers
    ensures actions' == actions + [a] && s' == Step(c, s, a) && Still(c, threads, actions', s')
  {
    actions', s' := actions + [a], Step(c, s, a);
    NoneRaces(s'.producers);
    RunMore(c, threads, 2, actions, s, a);
    RunInv(c, threads, 2, actions', s');
  }

  lemma {:induction false} LooksAt(c: Config, threads: nat, actions0: seq<Action>, s0: State) returns (actions: seq<Action>, s: State)
    requires ConfigOk(c) && Still(c, threads, actions0, s0) && s0.consumer.Resting? && s0.get < s0.post
    ensures Still(c, threads, actions, s) && s == s0.(consumer := Looking(s0.ring[Position(c, s0.get)]))
    ensures Flagged(c, s, s.get) && SlotOf(c, s, s.get).msg == s.claimed[s.get]
  {
    QuietIsReady(c, s0);
    assert Flagged(c, s0, s0.get);
    actions, s := ConsumerGoes(c, threads, actions0, s0, PopTest);
    actions, s := ConsumerGoes(c, threads, actions, s, PopGetPage);
    actions, s := ConsumerGoes(c, threads, actions, s, PopGetPage);
  }

  lemma {:induction false} Takes(c: Config, threads: nat, actions0: seq<Action>, s0: State) returns (actions: seq<Action>, s: State)
    requires ConfigOk(c) && Still(c, threads, actions0, s0) && s0.consumer == Looking(s0.ring[Position(c, s0.get)])
    requires Flagged(c, s0, s0.get) && s0.get < |s0.claimed| && SlotOf(c, s0, s0.get).msg == s0.claimed[s0.get]
    ensures Still(c, threads, actions, s) && s.consumer.Resting?
    ensures s.get == s0.get + 1 && s.post == s0.post && s.claimed == s0.claimed && s.popped == s0.popped + [s0.claimed[s0.get]]
  {
    actions, s := ConsumerGoes(c, threads, actions0, s0, PopLook);
    if s.consumer.Deleting? {
      actions, s := ConsumerGoes(c, threads, actions, s, PopDelete);
      actions, s := ConsumerGoes(c, threads, actions, s, PopClear);
    }
    actions, s := ConsumerGoes(c, threads, actions, s, PopCount);
  }

  /** After any run with at most two racing producers, once no push is under way, popping on
      gets out every message that was claimed, in order. */
  lemma {:induction false} EverythingIsPopped(c: Config, threads: nat, actions0: seq<Action>, s0: State) returns (actions: seq<Action>, s: State)
    requires ConfigOk(c) && Run(c, threads, 2, actions0, s0) && AllIdle(s0) && s0.consumer.Resting?
    ensures Run(c, threads, 2, actions, s) && s.claimed == s0.claimed && s.popped == s0.claimed
    decreases s0.post - s0.get
  {
    actions, s := actions0, s0;
    RunInv(c, threads, 2, actions, s);
    if s.get < s.post {
      actions, s := LooksAt(c, threads, actions, s);
      actions, s := Takes(c, threads, actions, s);
      actions, s := EverythingIsPopped(c, threads, actions, s);
    }
  }
}
