/**
 From a finite execution to an endless fair run, and executions built step by step in which the
 network is reliable: no peer comes or goes and every message is used at most once.
 */
module DownloadRuns {
  import opened Common
  import opened PieceTable
  import opened DownloadSystem
  import opened DownloadSafety
  import opened DownloadLiveness
  import C = DownloadControl

  // ---------------------------------------------------------------- from a finite execution to a run

  /** The system after the first n actions of an execution. */
  ghost function After(cfg: Config, s: System, actions: seq<Action>, s': System, n: nat): System
    requires Valid(cfg) && Executes(cfg, s, actions, s') && n <= |actions|
    decreases n
  {
    if n == 0 then s else After(cfg, Apply(cfg, s, actions[0]), actions[1..], s', n - 1)
  }

  lemma {:induction false} AfterRest(cfg: Config, s: System, actions: seq<Action>, s': System, n: nat)
    requires Valid(cfg) && Executes(cfg, s, actions, s') && n <= |actions|
    ensures Executes(cfg, After(cfg, s, actions, s', n), actions[n..], s')
    decreases n
  {
    if n == 0 {
      assert actions[0..] == actions;
    } else {
      AfterRest(cfg, Apply(cfg, s, actions[0]), actions[1..], s', n - 1);
      assert actions[1..][n - 1..] == actions[n..];
    }
  }

  lemma {:induction false} AfterNext(cfg: Config, s: System, actions: seq<Action>, s': System, n: nat)
    requires Valid(cfg) && Executes(cfg, s, actions, s') && n < |actions|
    ensures Enabled(cfg, After(cfg, s, actions, s', n), actions[n])
    ensures After(cfg, s, actions, s', n + 1) == Apply(cfg, After(cfg, s, actions, s', n), actions[n])
    decreases n
  {
    if n == 0 {
      assert After(cfg, Apply(cfg, s, actions[0]), actions[1..], s', 0) == Apply(cfg, s, actions[0]);
    } else {
      AfterNext(cfg, Apply(cfg, s, actions[0]), actions[1..], s', n - 1);
    }
  }

  lemma {:induction false} AfterAll(cfg: Config, s: System, actions: seq<Action>, s': System)
    requires Valid(cfg) && Executes(cfg, s, actions, s')
    ensures After(cfg, s, actions, s', |actions|) == s'
    decreases |actions|
  {
    if actions != [] {
      AfterAll(cfg, Apply(cfg, s, actions[0]), actions[1..], s');
    }
  }

  function IsAsk(a: Action): nat {
    if a.Ask? && a.sent then 1 else 0
  }

  function IsAnswer(a: Action): nat {
    if a.Answer? then 1 else 0
  }

  function IsEntry(a: Action): nat {
    if a.Enter? then 1 else 0
  }

  /** There were no more handler calls than answers, and no more answers than requests. */
  predicate Balanced(actions: seq<Action>) {
    Tally(actions, IsEntry) <= Tally(actions, IsAnswer) <= Tally(actions, IsAsk)
  }

  /** The peers stay the same, nobody sends anything unasked, and the main loop finds a peer. */
  predicate Ordinary(a: Action) {
    !a.Join? && !a.Leave? && !a.Noise? && !IsPoll(a)
  }

  ghost predicate AllOrdinary(actions: seq<Action>) {
    forall k | 0 <= k < |actions| :: Ordinary(actions[k])
  }

  /** A run with a reliable network: at every moment each message has been used at most once. */
  ghost predicate Plain(actions: seq<Action>) {
    && AllOrdinary(actions)
    && (forall n: nat | n <= |actions| :: Balanced(actions[..n]))
  }

  lemma PlainMore(actions: seq<Action>, a: Action)
    requires Plain(actions) && Ordinary(a) && Balanced(actions + [a])
    ensures Plain(actions + [a])
  {
    forall n: nat | n <= |actions + [a]| ensures Balanced((actions + [a])[..n]) {
      if n <= |actions| {
        assert (actions + [a])[..n] == actions[..n];
      } else {
        assert (actions + [a])[..n] == actions + [a];
      }
    }
  }

  lemma NobodyJoins(cfg: Config, s: System, a: Action)
    requires Valid(cfg) && Enabled(cfg, s, a) && Ordinary(a)
    ensures Apply(cfg, s, a).peers <= s.peers
  {
  }

  lemma {:induction false} AfterPeers(cfg: Config, s: System, actions: seq<Action>, s': System, n: nat)
    requires Valid(cfg) && Executes(cfg, s, actions, s') && n <= |actions| && AllOrdinary(actions)
    ensures After(cfg, s, actions, s', n).peers <= s.peers
    decreases n
  {
    if n > 0 {
      assert Ordinary(actions[0]);
      NobodyJoins(cfg, s, actions[0]);
      AfterPeers(cfg, Apply(cfg, s, actions[0]), actions[1..], s', n - 1);
    }
  }

  lemma AfterFailures(cfg: Config, s: System, actions: seq<Action>, s': System, n: nat)
    requires Valid(cfg) && Executes(cfg, s, actions, s') && n <= |actions|
    ensures C.Failures(After(cfg, s, actions, s', n).ctl) <= C.Failures(s'.ctl)
  {
    AfterRest(cfg, s, actions, s', n);
    var steps := Project(cfg, After(cfg, s, actions, s', n), actions[n..], s');
    C.FailuresGrowOverRun(After(cfg, s, actions, s', n).ctl, steps, s'.ctl);
  }

  lemma Smaller<T>(a: set<T>, b: set<T>)
    requires a <= b
    ensures |a| <= |b|
  {
    assert b == a + (b - a);
  }

  /** Once the download has returned the client can do nothing more. */
  lemma ReturnedIsIdle(cfg: Config, s: System, a: Action)
    requires Valid(cfg) && Inv(cfg, s) && s.ctl.pc.Finished? && !IsEnvironment(a)
    ensures !Enabled(cfg, s, a)
  {
    C.AllGone(s.ctl);
  }

  /** A worker that is alive at one time and not at a later one has acted in between. */
  lemma {:induction false} ActedBetween(cfg: Config, run: nat -> System, acts: nat -> Action, k: nat, n: nat, w: nat)
    requires Valid(cfg) && IsRun(cfg, run, acts) && k <= n
    requires Alive(run(k), w) && !Alive(run(n), w)
    ensures ActsAgain(acts, k, w)
    decreases n - k
  {
    assert run(k + 1) == Apply(cfg, run(k), acts(k));
    if IsOf(acts(k), w) {
      assert ActsAgain(acts, k, w);
    } else {
      StaysAlive(cfg, run(k), acts(k), w);
      ActedBetween(cfg, run, acts, k + 1, n, w);
      var j: nat :| k + 1 <= j && IsOf(acts(j), w);
      assert k <= j;
    }
  }

  lemma StaysAlive(cfg: Config, s: System, a: Action, w: nat)
    requires Valid(cfg) && Enabled(cfg, s, a) && Alive(s, w) && !IsOf(a, w)
    ensures Alive(Apply(cfg, s, a), w)
  {
    if !a.Control? {
      assert Apply(cfg, s, a).ctl == s.ctl;
    }
  }

  lemma FairToTheEnd(cfg: Config, run: nat -> System, acts: nat -> Action, n: nat, s: System)
    requires Valid(cfg) && IsRun(cfg, run, acts) && Inv(cfg, s) && s.ctl.pc.Finished?
    requires 0 < n && !IsEnvironment(acts(n - 1)) && forall k: nat | n <= k :: run(k) == s
    ensures Fair(cfg, run, acts)
  {
    forall k: nat | exists a :: !IsEnvironment(a) && Enabled(cfg, run(k), a) ensures !QuietFrom(acts, k) {
      if n <= k {
        var a :| !IsEnvironment(a) && Enabled(cfg, run(k), a);
        ReturnedIsIdle(cfg, s, a);
        assert false;
      }
    }
    C.AllGone(s.ctl);
    forall k: nat, w: nat | Alive(run(k), w) ensures ActsAgain(acts, k, w) {
      if k < n {
        ActedBetween(cfg, run, acts, k, n, w);
      }
    }
  }

  /** After the execution the environment idles for ever: a peer connects that is already connected. */
  function ActAt(actions: seq<Action>, p: Peer, n: nat): Action {
    if n < |actions| then actions[n] else Join(p)
  }

  ghost function StateAt(cfg: Config, s0: System, actions: seq<Action>, s: System, n: nat): System
    requires Valid(cfg) && Executes(cfg, s0, actions, s)
  {
    if n <= |actions| then After(cfg, s0, actions, s, n) else s
  }

  lemma StateNext(cfg: Config, s0: System, actions: seq<Action>, s: System, p: Peer, n: nat)
    requires Valid(cfg) && Executes(cfg, s0, actions, s) && p in s.peers
    ensures Enabled(cfg, StateAt(cfg, s0, actions, s, n), ActAt(actions, p, n))
    ensures StateAt(cfg, s0, actions, s, n + 1) == Apply(cfg, StateAt(cfg, s0, actions, s, n), ActAt(actions, p, n))
  {
    if n < |actions| {
      AfterNext(cfg, s0, actions, s, n);
    } else {
      AfterAll(cfg, s0, actions, s);
      assert s.peers + {p} == s.peers;
    }
  }

  lemma IsRunOf(
    cfg: Config, s0: System, actions: seq<Action>, s: System, p: Peer, run: nat -> System, acts: nat -> Action)
    requires Valid(cfg) && Initial(cfg, s0) && Executes(cfg, s0, actions, s) && p in s.peers
    requires forall n: nat :: run(n) == StateAt(cfg, s0, actions, s, n)
    requires forall n: nat :: acts(n) == ActAt(actions, p, n)
    ensures IsRun(cfg, run, acts)
  {
    forall n: nat ensures Enabled(cfg, run(n), acts(n)) && run(n + 1) == Apply(cfg, run(n), acts(n)) {
      StateNext(cfg, s0, actions, s, p, n);
    }
  }

  lemma RunOf(cfg: Config, s0: System, actions: seq<Action>, s: System, p: Peer)
    returns (run: nat -> System, acts: nat -> Action)
    requires Valid(cfg) && Initial(cfg, s0) && Executes(cfg, s0, actions, s)
    requires s.ctl.pc.Finished? && p in s.peers
    requires actions != [] && !IsEnvironment(actions[|actions| - 1])
    ensures IsRun(cfg, run, acts) && Fair(cfg, run, acts)
    ensures forall n: nat :: run(n) == StateAt(cfg, s0, actions, s, n)
    ensures forall n: nat :: acts(n) == ActAt(actions, p, n)
    ensures run(0) == s0 && run(|actions|) == s
  {
    run := (n: nat) => StateAt(cfg, s0, actions, s, n);
    acts := (n: nat) => ActAt(actions, p, n);
    AfterAll(cfg, s0, actions, s);
    IsRunOf(cfg, s0, actions, s, p, run, acts);
    InitialInv(cfg, s0);
    InvReached(cfg, s0, actions, s);
    FairToTheEnd(cfg, run, acts, |actions|, s);
  }

  // ---------------------------------------------------------------- building an execution step by step

  lemma Do(cfg: Config, s0: System, actions: seq<Action>, s: System, a: Action)
    returns (actions': seq<Action>, s': System)
    requires Valid(cfg) && Executes(cfg, s0, actions, s) && Plain(actions) && Enabled(cfg, s, a) && Ordinary(a)
    requires a.Enter? ==> Tally(actions, IsEntry) < Tally(actions, IsAnswer)
    requires a.Answer? ==> Tally(actions, IsAnswer) < Tally(actions, IsAsk)
    ensures actions' == actions + [a] && s' == Apply(cfg, s, a)
    ensures Executes(cfg, s0, actions', s') && Plain(actions')
    ensures Tally(actions', IsEntry) == Tally(actions, IsEntry) + IsEntry(a)
    ensures Tally(actions', IsAnswer) == Tally(actions, IsAnswer) + IsAnswer(a)
    ensures Tally(actions', IsAsk) == Tally(actions, IsAsk) + IsAsk(a)
  {
    Extend(cfg, s0, actions, s, a);
    TallyAppend(actions, a, IsEntry);
    TallyAppend(actions, a, IsAnswer);
    TallyAppend(actions, a, IsAsk);
    NowBalanced(actions);
    PlainMore(actions, a);
    actions', s' := actions + [a], Apply(cfg, s, a);
  }

  /** No request, answer or handler call was added. */
  predicate SameTraffic(actions: seq<Action>, actions': seq<Action>) {
    && Tally(actions', IsEntry) == Tally(actions, IsEntry)
    && Tally(actions', IsAnswer) == Tally(actions, IsAnswer)
    && Tally(actions', IsAsk) == Tally(actions, IsAsk)
  }

  lemma NowBalanced(actions: seq<Action>)
    requires Plain(actions)
    ensures Balanced(actions)
  {
    assert actions[..|actions|] == actions;
  }
}
