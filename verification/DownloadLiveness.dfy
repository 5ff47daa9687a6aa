/**
 The control results carried over to the whole system, and its progress: the client always has
 something it can do until it has returned, and it cannot keep doing things for ever.
 */
module DownloadLiveness {
  import opened Common
  import opened PieceTable
  import opened Assembly
  import opened Chunking
  import opened DownloadSystem
  import opened DownloadSafety
  import C = DownloadControl

  // ---------------------------------------------------------------- the system refines its control part

  /** Forgetting everything but the control part turns a run of the system into a run of the control part. */
  lemma {:induction false} Project(cfg: Config, s: System, actions: seq<Action>, s': System)
    returns (steps: seq<C.Step>)
    requires Valid(cfg) && Executes(cfg, s, actions, s')
    ensures C.Executes(s.ctl, steps, s'.ctl)
    decreases |actions|
  {
    if actions == [] {
      steps := [];
    } else {
      var next := Apply(cfg, s, actions[0]);
      var rest := Project(cfg, next, actions[1..], s');
      if actions[0].Control? {
        steps := [actions[0].step] + rest;
        assert steps[1..] == rest;
      } else {
        assert next.ctl == s.ctl;
        steps := rest;
      }
    }
  }

  /**
   What a finished download's result says: nil exactly when for every piece the worker that
   finished last succeeded; nil only if every piece had a peer at the start; and, when no worker
   failed, if every piece had one.
   */
  lemma ResultOfDownload(cfg: Config, s0: System, actions: seq<Action>, s: System)
    requires Valid(cfg) && Initial(cfg, s0) && Executes(cfg, s0, actions, s) && s.ctl.pc.Finished?
    ensures s.ctl.pc.ok <==> forall i: nat | i < Total(cfg) :: C.LastOutcome(s.ctl.outcomes, i) == Some(true)
    ensures s.ctl.pc.ok ==> Peered(s0.ctl.table)
    ensures C.Failures(s.ctl) == 0 && Peered(s0.ctl.table) ==> s.ctl.pc.ok
  {
    var steps := Project(cfg, s0, actions, s);
    C.ResultExact(s0.ctl, steps, s.ctl);
    if s.ctl.pc.ok {
      C.NilNeedsPeers(s0.ctl, steps, s.ctl);
    }
    if C.Failures(s.ctl) == 0 {
      C.FailureFreeResult(s0.ctl, steps, s.ctl);
    }
    ReachableInv(cfg, s);
  }

  /** DownloadFile's state on entering its loop, with the peers connected at that time. */
  ghost function Start(cfg: Config, hashes: seq<string>, order: seq<Peer>): System
    requires Valid(cfg) && |hashes| == Total(cfg)
  {
    var table := StartTable(Total(cfg), hashes, order);
    System(C.Control(C.LoopTop, table, [], {}, 0, 0, []), [], [], {}, {}, multiset{}, Elements(order), [])
  }

  lemma StartIsInitial(cfg: Config, hashes: seq<string>, order: seq<Peer>)
    requires Valid(cfg) && |hashes| == Total(cfg)
    ensures Initial(cfg, Start(cfg, hashes, order))
    ensures Peered(Start(cfg, hashes, order).ctl.table) <==> order != [] || cfg.src == []
  {
    StartTableIs(Total(cfg), hashes, order);
    var table := StartTable(Total(cfg), hashes, order);
    assert forall i: nat :: i in table <==> i in Fresh(Total(cfg), hashes);
    if order != [] {
      assert order[0] in Elements(order);
    } else if cfg.src != [] {
      AcceptedIffCounted(cfg.src, cfg.chunkSize, 0);
      assert 0 in table && table[0].peers == {};
    }
  }

  /**
   A download that has returned from its final check leaves nothing open: the file can be downloaded
   again, whatever handlers, channels, requests, messages and calls the first time left behind.
   */
  lemma AgainAfterwards(cfg: Config, s: System, again: System)
    requires Valid(cfg) && Reachable(cfg, s) && s.ctl.pc.Finished?
    requires C.Initial(again.ctl) && (forall i: nat :: i in again.ctl.table <==> i < Total(cfg))
    requires again.inner == [] && again.out == []
    requires again.handlers == s.handlers && again.net == s.net && again.calls == s.calls
    ensures Initial(cfg, again)
  {
    ReachableInv(cfg, s);
    C.AllGone(s.ctl);
    forall w: nat | w < |s.inner| ensures Current(s.inner[w]) == None {
      assert !s.ctl.workers[w].phase.Running?;
    }
  }

  // ---------------------------------------------------------------- progress

  /** Until the download has returned, some action of the client itself is possible. */
  lemma ClientCanStep(cfg: Config, s: System) returns (a: Action)
    requires Valid(cfg) && Inv(cfg, s) && !C.Returned(s.ctl)
    ensures !IsEnvironment(a) && Enabled(cfg, s, a)
  {
    match s.ctl.pc
    case LoopTop => a := Control(C.CheckComplete);
    case CountPeers => a := Control(C.ReadPeers(|s.peers|, false));
    case TakeBatch(limit) =>
      var batch := BatchExists(s.ctl.table, limit);
      a := Control(C.GetBatch(batch));
    case EmptyBatch => a := Control(C.CheckActive);
    case Launching(queue) =>
      if s.ctl.tokens < C.MAX_CONCURRENT {
        a := Control(C.Launch);
      } else {
        var w := TallyPositive(s.ctl.workers, C.HoldsToken);
        a := WorkerCanStep(cfg, s, w);
      }
    case Waiting =>
      if s.ctl.pending == 0 {
        a := Control(C.Return);
      } else {
        var w := TallyPositive(s.ctl.workers, C.IsAlive);
        a := WorkerCanStep(cfg, s, w);
      }
  }

  lemma WorkerCanStep(cfg: Config, s: System, w: nat) returns (a: Action)
    requires Valid(cfg) && Inv(cfg, s)
    requires w < |s.ctl.workers| && !s.ctl.workers[w].phase.Gone?
    ensures !IsEnvironment(a) && Enabled(cfg, s, a)
  {
    if s.ctl.workers[w].phase.Running? {
      assert WorkerOk(cfg, s, w);
      match s.inner[w]
      case Attempting(_) =>
        if s.peers == {} {
          a := NoPeers(w);
        } else {
          var order := SomeOrder(s.peers);
          a := Snapshot(w, order);
        }
      case Asking(_, left) => a := if left == [] then NextAttempt(w) else Ask(w, true);
      case Awaiting(_, _, _, _) => a := Timeout(w);
      case Writing(_, _, _, _, _) => a := WriteOnce(w, Attempt(0, true));
      case Succeeded => a := Control(C.Finish(w, true));
      case Failed => a := Control(C.Finish(w, false));
    } else {
      C.WorkerNeverBlocks(s.ctl, w, true);
      a := Control(C.WorkerStep(s.ctl, w, true));
    }
  }

  lemma {:induction false} SomeOrder(peers: set<Peer>) returns (order: seq<Peer>)
    ensures multiset(order) == multiset(peers)
  {
    if peers == {} {
      order := [];
    } else {
      var p := Member(peers);
      var rest := SomeOrder(peers - {p});
      order := rest + [p];
      assert multiset(order) == multiset(peers - {p}) + multiset{p};
      assert peers == (peers - {p}) + {p};
    }
  }

  // ---------------------------------------------------------------- termination

  /** More than the steps one attempt can take when at most `most` peers are asked. */
  function AttemptCost(most: nat): nat {
    6 * most + 3
  }

  function AttemptsAfter(attempt: nat, most: nat): nat {
    if attempt == 0 then AttemptCost(most) + AttemptCost(most)
    else if attempt == 1 then AttemptCost(most)
    else 0
  }

  function InnerRank(i: Inner, most: nat): nat {
    match i
    case Attempting(k) => AttemptsAfter(k, most) + AttemptCost(most)
    case Asking(k, left) => AttemptsAfter(k, most) + 6 * |left| + 2
    case Awaiting(k, left, _, _) => AttemptsAfter(k, most) + 6 * |left| + 7
    case Writing(k, left, _, _, tries) =>
      AttemptsAfter(k, most) + 6 * |left| + (if tries < MAX_WRITES then 6 - tries else 3)
    case Succeeded => 0
    case Failed => 0
  }

  function InnerWeight(most: nat): Inner -> nat {
    (i: Inner) => InnerRank(i, most)
  }

  /** No worker has more peers left than `most`, and none is past its last attempt. */
  predicate Bounded(i: Inner, most: nat) {
    match i
    case Attempting(k) => k < MAX_ATTEMPTS
    case Asking(k, left) => k < MAX_ATTEMPTS && |left| <= most
    case Awaiting(k, left, _, _) => k < MAX_ATTEMPTS && |left| <= most
    case Writing(k, left, _, _, tries) => k < MAX_ATTEMPTS && |left| <= most && tries < MAX_WRITES
    case _ => true
  }

  ghost predicate AllBounded(s: System, most: nat) {
    forall w | 0 <= w < |s.inner| :: Bounded(s.inner[w], most)
  }

  /** What is left to do, the control part first, then what the workers have to do inside downloadChunk. */
  datatype Effort = Effort(control: C.Rank, inner: nat)

  ghost function EffortOf(s: System, budget: nat, most: nat): Effort {
    Effort(C.RankOf(s.ctl, budget), Tally(s.inner, InnerWeight(most)))
  }

  ghost predicate Below(a: Effort, b: Effort) {
    C.Below(a.control, b.control) || (a.control == b.control && a.inner < b.inner)
  }

  ghost predicate Grounded(e: Effort) {
    e.control.failuresLeft >= 0 && e.control.free >= 0
  }

  lemma BelowTransitive(a: Effort, b: Effort, c: Effort)
    requires Below(a, b) && (b == c || Below(b, c))
    ensures Below(a, c)
  {
  }

  /** Reading an empty peer list in the main loop, whether or not reconnecting then succeeds. */
  predicate IsPoll(a: Action) {
    a.Control? && C.IsPoll(a.step)
  }

  predicate IsMain(a: Action) {
    a.Control? && C.IsMain(a.step)
  }

  /** Launches and the actions of workers. */
  predicate IsWork(a: Action) {
    !IsEnvironment(a) && !IsMain(a)
  }

  /** The action is one of worker w's own. */
  predicate IsOf(a: Action, w: nat) {
    if a.Control? then
      (a.step.Finish? || a.step.Unlist? || a.step.Release? || a.step.Depart?) && a.step.w == w
    else !IsEnvironment(a) && a.w == w
  }

  lemma OrderLength(order: seq<Peer>, peers: set<Peer>)
    requires multiset(order) == multiset(peers)
    ensures |order| == |peers|
  {
    assert |multiset(order)| == |order|;
    assert |multiset(peers)| == |peers|;
  }

  /** An action inside downloadChunk changes only its own worker's place, to a later one. */
  lemma WorkerMoves(cfg: Config, s: System, a: Action, most: nat) returns (x: Inner)
    requires Valid(cfg) && Enabled(cfg, s, a) && |s.peers| <= most
    requires !a.Control? && !IsEnvironment(a)
    requires a.w < |s.inner| && Bounded(s.inner[a.w], most)
    ensures Apply(cfg, s, a).ctl == s.ctl && Apply(cfg, s, a).inner == s.inner[a.w := x]
    ensures Bounded(x, most) && InnerRank(x, most) < InnerRank(s.inner[a.w], most)
  {
    if a.Snapshot? {
      OrderLength(a.order, s.peers);
    }
    x := Apply(cfg, s, a).inner[a.w];
  }

  lemma ActsOnWorker(cfg: Config, s: System, a: Action)
    requires Valid(cfg) && Enabled(cfg, s, a) && !a.Control? && !IsEnvironment(a)
    ensures a.w < |s.inner|
  {
  }

  /** Every action inside downloadChunk brings its worker closer to its result. */
  lemma WorkerActionDecreases(cfg: Config, s: System, a: Action, most: nat)
    requires Valid(cfg) && Enabled(cfg, s, a) && AllBounded(s, most) && |s.peers| <= most
    requires !a.Control? && !IsEnvironment(a)
    ensures Apply(cfg, s, a).ctl == s.ctl
    ensures AllBounded(Apply(cfg, s, a), most)
    ensures Tally(Apply(cfg, s, a).inner, InnerWeight(most)) < Tally(s.inner, InnerWeight(most))
  {
    ActsOnWorker(cfg, s, a);
    var x := WorkerMoves(cfg, s, a, most);
    TallyUpdate(s.inner, a.w, x, InnerWeight(most));
  }

  /** Every launch and every action of a worker leaves less to do; the main goroutine alone changes nothing. */
  lemma ClientActionDecreases(cfg: Config, s: System, a: Action, budget: nat, most: nat)
    requires Valid(cfg) && Inv(cfg, s) && Enabled(cfg, s, a) && AllBounded(s, most) && |s.peers| <= most
    requires !IsEnvironment(a)
    ensures AllBounded(Apply(cfg, s, a), most)
    ensures if IsMain(a) then EffortOf(Apply(cfg, s, a), budget, most) == EffortOf(s, budget, most)
            else Below(EffortOf(Apply(cfg, s, a), budget, most), EffortOf(s, budget, most))
  {
    if a.Control? {
      C.StepDecreases(s.ctl, a.step, budget);
    } else {
      WorkerActionDecreases(cfg, s, a, most);
    }
  }

  /** An endless run of the system, with the actions that it takes. */
  ghost predicate IsRun(cfg: Config, run: nat -> System, acts: nat -> Action)
    requires Valid(cfg)
  {
    && Initial(cfg, run(0))
    && forall k: nat :: Enabled(cfg, run(k), acts(k)) && run(k + 1) == Apply(cfg, run(k), acts(k))
  }

  ghost predicate NoPollsFrom(acts: nat -> Action, n: nat) {
    forall k: nat | n <= k :: !IsPoll(acts(k))
  }

  /**
   The assumptions under which a download must end: at most `budget` workers fail, at most `most`
   peers are connected at any time, and the main loop finds its peer list empty only finitely often,
   each time reconnecting. No piece needs to have a peer.
   */
  ghost predicate Tame(run: nat -> System, acts: nat -> Action, budget: nat, most: nat) {
    && (forall k: nat :: C.Failures(run(k).ctl) <= budget)
    && (forall k: nat :: |run(k).peers| <= most)
    && (forall k: nat :: acts(k) != Control(C.ReadPeers(0, false)))
    && (exists n: nat :: NoPollsFrom(acts, n))
  }

  ghost predicate QuietFrom(acts: nat -> Action, n: nat) {
    forall k: nat | n <= k :: IsEnvironment(acts(k))
  }

  predicate Alive(s: System, w: nat) {
    w < |s.ctl.workers| && !s.ctl.workers[w].phase.Gone?
  }

  ghost predicate ActsAgain(acts: nat -> Action, k: nat, w: nat) {
    exists j: nat :: k <= j && IsOf(acts(j), w)
  }

  /**
   The scheduler runs the client again whenever the client can do something, and every worker that
   has not departed; such a worker can always do something (WorkerCanStep).
   */
  ghost predicate Fair(cfg: Config, run: nat -> System, acts: nat -> Action)
    requires Valid(cfg)
  {
    && (forall k: nat :: (exists a :: !IsEnvironment(a) && Enabled(cfg, run(k), a)) ==> !QuietFrom(acts, k))
    && FairToWorkers(run, acts)
  }

  ghost predicate FairToWorkers(run: nat -> System, acts: nat -> Action) {
    forall k: nat, w: nat :: Alive(run(k), w) ==> ActsAgain(acts, k, w)
  }

  ghost predicate Good(cfg: Config, s: System, most: nat)
    requires Valid(cfg)
  {
    Inv(cfg, s) && AllBounded(s, most)
  }

  lemma GoodKept(cfg: Config, s: System, a: Action, budget: nat, most: nat)
    requires Valid(cfg) && Good(cfg, s, most) && Enabled(cfg, s, a) && |s.peers| <= most
    ensures Good(cfg, Apply(cfg, s, a), most)
    ensures IsEnvironment(a) ==> Apply(cfg, s, a).ctl == s.ctl && Apply(cfg, s, a).inner == s.inner
    ensures if IsWork(a) then Below(EffortOf(Apply(cfg, s, a), budget, most), EffortOf(s, budget, most))
            else EffortOf(Apply(cfg, s, a), budget, most) == EffortOf(s, budget, most)
  {
    InvKept(cfg, s, a);
    if IsEnvironment(a) {
      EnvironmentIdle(cfg, s, a);
    } else {
      ClientActionDecreases(cfg, s, a, budget, most);
    }
  }

  lemma EnvironmentIdle(cfg: Config, s: System, a: Action)
    requires Valid(cfg) && Enabled(cfg, s, a) && IsEnvironment(a)
    ensures Apply(cfg, s, a).ctl == s.ctl && Apply(cfg, s, a).inner == s.inner
  {
  }

  lemma {:induction false} GoodThroughout(
    cfg: Config, run: nat -> System, acts: nat -> Action, budget: nat, most: nat, n: nat)
    requires Valid(cfg) && IsRun(cfg, run, acts) && Tame(run, acts, budget, most)
    ensures Good(cfg, run(n), most)
  {
    if n == 0 {
      InitialInv(cfg, run(0));
    } else {
      GoodThroughout(cfg, run, acts, budget, most, n - 1);
      GoodKept(cfg, run(n - 1), acts(n - 1), budget, most);
    }
  }

  lemma OneStep(cfg: Config, run: nat -> System, acts: nat -> Action, budget: nat, most: nat, k: nat)
    requires Valid(cfg) && IsRun(cfg, run, acts) && Tame(run, acts, budget, most)
    ensures Grounded(EffortOf(run(k), budget, most))
    ensures if IsWork(acts(k)) then Below(EffortOf(run(k + 1), budget, most), EffortOf(run(k), budget, most))
            else EffortOf(run(k + 1), budget, most) == EffortOf(run(k), budget, most)
  {
    GoodThroughout(cfg, run, acts, budget, most, k);
    GoodKept(cfg, run(k), acts(k), budget, most);
  }

  // ---------------------------------------------------------------- the work ends

  ghost predicate NoWorkFrom(acts: nat -> Action, n: nat) {
    forall k: nat | n <= k :: !IsWork(acts(k))
  }

  /** An effort that work decreases and everything else leaves alone. */
  ghost predicate Descends(effort: nat -> Effort, acts: nat -> Action) {
    forall k: nat ::
      && Grounded(effort(k))
      && if IsWork(acts(k)) then Below(effort(k + 1), effort(k)) else effort(k + 1) == effort(k)
  }

  lemma {:induction false} NeverRises(effort: nat -> Effort, acts: nat -> Action, n: nat, m: nat)
    requires Descends(effort, acts) && n <= m
    ensures effort(m) == effort(n) || Below(effort(m), effort(n))
    decreases m - n
  {
    if n < m {
      NeverRises(effort, acts, n, m - 1);
      if IsWork(acts(m - 1)) {
        BelowTransitive(effort(m), effort(m - 1), effort(n));
      }
    }
  }

  lemma {:induction false} DescentEnds(effort: nat -> Effort, acts: nat -> Action, n: nat) returns (still: nat)
    requires Descends(effort, acts)
    ensures NoWorkFrom(acts, still)
    decreases effort(n).control.failuresLeft, effort(n).control.unverified, effort(n).control.surplus,
              effort(n).control.winding, effort(n).control.free, effort(n).inner
  {
    if k: nat :| n <= k && IsWork(acts(k)) {
      NeverRises(effort, acts, n, k);
      BelowTransitive(effort(k + 1), effort(k), effort(n));
      assert Grounded(effort(n));
      still := DescentEnds(effort, acts, k + 1);
    } else {
      still := n;
    }
  }

  lemma WorkEnds(cfg: Config, run: nat -> System, acts: nat -> Action, budget: nat, most: nat) returns (still: nat)
    requires Valid(cfg) && IsRun(cfg, run, acts) && Tame(run, acts, budget, most)
    ensures NoWorkFrom(acts, still)
  {
    var effort := (k: nat) => EffortOf(run(k), budget, most);
    forall k: nat
      ensures Grounded(effort(k))
      ensures if IsWork(acts(k)) then Below(effort(k + 1), effort(k)) else effort(k + 1) == effort(k)
    {
      OneStep(cfg, run, acts, budget, most, k);
    }
    still := DescentEnds(effort, acts, 0);
  }

  lemma NobodysWork(acts: nat -> Action, still: nat, j: nat, w: nat)
    requires NoWorkFrom(acts, still) && still <= j
    ensures !IsOf(acts(j), w)
  {
    assert !IsWork(acts(j));
  }

  lemma NotAlive(run: nat -> System, acts: nat -> Action, still: nat, k: nat, w: nat)
    requires FairToWorkers(run, acts) && NoWorkFrom(acts, still) && still <= k
    ensures !Alive(run(k), w)
  {
    if Alive(run(k), w) {
      assert ActsAgain(acts, k, w);
      var j: nat :| k <= j && IsOf(acts(j), w);
      NobodysWork(acts, still, j, w);
      assert false;
    }
  }

  lemma ListedIsAlive(s: System, i: nat) returns (w: nat)
    requires C.HasListed(s.ctl, i, true)
    ensures Alive(s, w)
  {
    w :| 0 <= w < |s.ctl.workers| && s.ctl.workers[w].piece == i && C.IsListed(s.ctl.workers[w]);
  }

  /** Once there is no more work every worker has departed, and nothing is active. */
  lemma NobodyLeft(cfg: Config, run: nat -> System, acts: nat -> Action, still: nat, k: nat)
    requires Valid(cfg) && Inv(cfg, run(k)) && FairToWorkers(run, acts)
    requires NoWorkFrom(acts, still) && still <= k
    ensures run(k).ctl.active == {}
  {
    if run(k).ctl.active != {} {
      var i := Member(run(k).ctl.active);
      var w := ListedIsAlive(run(k), i);
      NotAlive(run, acts, still, k, w);
      assert false;
    }
  }

  // ---------------------------------------------------------------- the main goroutine ends

  /** From n on the main goroutine neither launches nor polls nor waits, so every step of it brings it nearer. */
  ghost predicate MainDescends(cfg: Config, run: nat -> System, acts: nat -> Action, n: nat) {
    forall k: nat | n <= k ::
      if IsEnvironment(acts(k)) then C.MainRank(run(k + 1).ctl) == C.MainRank(run(k).ctl)
      else C.MainRank(run(k + 1).ctl) < C.MainRank(run(k).ctl)
  }

  lemma {:induction false} MainNeverRises(cfg: Config, run: nat -> System, acts: nat -> Action, n: nat, m: nat)
    requires MainDescends(cfg, run, acts, n) && n <= m
    ensures C.MainRank(run(m).ctl) <= C.MainRank(run(n).ctl)
    decreases m - n
  {
    if n < m {
      MainNeverRises(cfg, run, acts, n, m - 1);
    }
  }

  lemma {:induction false} MainEnds(cfg: Config, run: nat -> System, acts: nat -> Action, n: nat) returns (quiet: nat)
    requires MainDescends(cfg, run, acts, n)
    ensures QuietFrom(acts, quiet)
    decreases C.MainRank(run(n).ctl)
  {
    if k: nat :| n <= k && !IsEnvironment(acts(k)) {
      MainNeverRises(cfg, run, acts, n, k);
      quiet := MainEnds(cfg, run, acts, k + 1);
    } else {
      quiet := n;
    }
  }

  /** The client cannot keep acting: from some point on, only the environment does. */
  lemma BecomesQuiet(cfg: Config, run: nat -> System, acts: nat -> Action, budget: nat, most: nat) returns (quiet: nat)
    requires Valid(cfg) && IsRun(cfg, run, acts) && Tame(run, acts, budget, most) && Fair(cfg, run, acts)
    ensures QuietFrom(acts, quiet)
  {
    var still := WorkEnds(cfg, run, acts, budget, most);
    var calm: nat :| NoPollsFrom(acts, calm);
    var n := if still < calm then calm else still;
    forall k: nat | n <= k
      ensures if IsEnvironment(acts(k)) then C.MainRank(run(k + 1).ctl) == C.MainRank(run(k).ctl)
              else C.MainRank(run(k + 1).ctl) < C.MainRank(run(k).ctl)
    {
      assert !IsWork(acts(k)) && !IsPoll(acts(k));
      GoodThroughout(cfg, run, acts, budget, most, k);
      if IsEnvironment(acts(k)) {
        EnvironmentIdle(cfg, run(k), acts(k));
      } else {
        NobodyLeft(cfg, run, acts, still, k);
        C.MainDecreases(run(k).ctl, acts(k).step);
      }
    }
    quiet := MainEnds(cfg, run, acts, n);
  }

  lemma {:induction false} RunPrefix(cfg: Config, run: nat -> System, acts: nat -> Action, n: nat, m: nat)
    returns (actions: seq<Action>)
    requires Valid(cfg) && IsRun(cfg, run, acts) && n <= m
    ensures Executes(cfg, run(n), actions, run(m))
    decreases m - n
  {
    if n == m {
      actions := [];
    } else {
      var rest := RunPrefix(cfg, run, acts, n + 1, m);
      actions := [acts(n)] + rest;
      assert actions[1..] == rest;
    }
  }

  /**
   Under these assumptions and a fair scheduler every download returns from its final check; nil
   means that the output file is the source file, and with no failing worker it returns nil exactly
   if every piece had a peer at the start.
   */
  lemma DownloadReturns(cfg: Config, run: nat -> System, acts: nat -> Action, budget: nat, most: nat) returns (n: nat)
    requires Valid(cfg) && IsRun(cfg, run, acts) && Tame(run, acts, budget, most) && Fair(cfg, run, acts)
    ensures run(n).ctl.pc.Finished?
    ensures run(n).ctl.pc.ok ==> Content(run(n).out) == cfg.src
    ensures budget == 0 ==> (run(n).ctl.pc.ok <==> Peered(run(0).ctl.table))
  {
    n := BecomesQuiet(cfg, run, acts, budget, most);
    GoodThroughout(cfg, run, acts, budget, most, n);
    if !C.Returned(run(n).ctl) {
      var a := ClientCanStep(cfg, run(n));
      assert false;
    }
    NeverAborts(cfg, run, acts, budget, most, n);
    var actions := RunPrefix(cfg, run, acts, 0, n);
    ResultOfDownload(cfg, run(0), actions, run(n));
    if run(n).ctl.pc.ok {
      NilMeansRightFile(cfg, run(n));
    }
  }

  lemma {:induction false} NeverAborts(
    cfg: Config, run: nat -> System, acts: nat -> Action, budget: nat, most: nat, n: nat)
    requires Valid(cfg) && IsRun(cfg, run, acts) && Tame(run, acts, budget, most)
    ensures !run(n).ctl.pc.Aborted?
  {
    if n > 0 {
      NeverAborts(cfg, run, acts, budget, most, n - 1);
      assert run(n) == Apply(cfg, run(n - 1), acts(n - 1));
      if acts(n - 1).Control? {
        C.AbortsNow(run(n - 1).ctl, acts(n - 1).step);
      }
    }
  }
}
