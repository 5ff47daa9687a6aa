/**
 The control part of DownloadFile as a step system: the main loop, the semaphore, the wait group,
 the active-download set, and when each worker goroutine writes its piece's status.
 Every access that the source guards with a lock or a channel is one step, so steps of the main
 goroutine and of the workers interleave freely. What a worker does between its launch and its
 result is in DownloadSystem.
 */
module DownloadControl {
  import opened Common
  import opened PieceTable

  /** `maxConcurrent`: the capacity of the semaphore channel. */
  const MAX_CONCURRENT: nat := 10

  /** Where a worker goroutine is; its three deferred calls run last-declared first. */
  datatype Phase =
    | Running    // inside downloadChunk
    | Marked     // status written, deferred calls pending
    | Unlisted   // removed its index from activeDownloads
    | Released   // gave its semaphore token back
    | Gone       // called wg.Done

  datatype Worker = Worker(piece: nat, phase: Phase)

  /** Where the main goroutine is. */
  datatype Pc =
    | LoopTop                      // about to call IsComplete
    | CountPeers                   // incomplete; about to read len(s.peers)
    | TakeBatch(limit: nat)        // about to call GetNextPieces(limit)
    | Launching(queue: seq<nat>)   // pieces of the batch without a worker yet
    | EmptyBatch                   // nothing to hand out; about to look at activeDownloads
    | Waiting                      // in wg.Wait
    | Finished(ok: bool)           // returned after the final check; ok means a nil error
    | Aborted                      // returned because no peer could be reached

  /** One write of a piece status by a worker: Verified when ok, Missing otherwise. */
  datatype Outcome = Outcome(piece: nat, ok: bool)

  datatype Control = Control(
    pc: Pc,
    table: Table,
    workers: seq<Worker>,
    active: set<nat>,
    tokens: nat,
    pending: nat,
    outcomes: seq<Outcome>)

  datatype Step =
    | CheckComplete
    | ReadPeers(count: nat, reconnected: bool)
    | GetBatch(batch: seq<nat>)
    | Launch
    | CheckActive
    | Finish(w: nat, ok: bool)
    | Unlist(w: nat)
    | Release(w: nat)
    | Depart(w: nat)
    | Return

  // ---------------------------------------------------------------- steps

  predicate InPhase(s: Control, w: nat, phase: Phase) {
    w < |s.workers| && s.workers[w].phase == phase
  }

  ghost predicate Enabled(s: Control, step: Step) {
    match step
    case CheckComplete => s.pc.LoopTop?
    case ReadPeers(_, _) => s.pc.CountPeers?
    case GetBatch(batch) => s.pc.TakeBatch? && IsBatch(s.table, s.pc.limit, batch)
    case Launch => s.pc.Launching? && s.pc.queue != [] && s.tokens < MAX_CONCURRENT
    case CheckActive => s.pc.EmptyBatch?
    case Finish(w, _) => InPhase(s, w, Running)
    case Unlist(w) => InPhase(s, w, Marked)
    case Release(w) => InPhase(s, w, Unlisted) && s.tokens > 0
    case Depart(w) => InPhase(s, w, Released) && s.pending > 0
    case Return => s.pc.Waiting? && s.pending == 0
  }

  /** The batch size asked for: twice the semaphore capacity, times the number of peers. */
  function BatchLimit(peers: nat): nat {
    MAX_CONCURRENT * (if peers > 1 then peers * 2 else 2)
  }

  function SetPhase(s: Control, w: nat, phase: Phase): Control
    requires w < |s.workers|
  {
    s.(workers := s.workers[w := s.workers[w].(phase := phase)])
  }

  /** The main goroutine goes on to the next piece, or back to the loop condition after the last. */
  function NextInBatch(queue: seq<nat>): Pc {
    if queue == [] then LoopTop else Launching(queue)
  }

  ghost function Apply(s: Control, step: Step): Control
    requires Enabled(s, step)
  {
    match step
    case CheckComplete =>
      s.(pc := if AllVerified(s.table) then Waiting else CountPeers)
    case ReadPeers(count, reconnected) =>
      if count > 0 then s.(pc := TakeBatch(BatchLimit(count)))
      else s.(pc := if reconnected then LoopTop else Aborted)
    case GetBatch(batch) =>
      s.(pc := if batch == [] then EmptyBatch else Launching(batch),
         table := MarkAll(s.table, Elements(batch), Requested))
    case Launch =>
      var piece := s.pc.queue[0];
      s.(pc := NextInBatch(s.pc.queue[1..]),
         workers := s.workers + [Worker(piece, Running)],
         active := s.active + {piece},
         tokens := s.tokens + 1,
         pending := s.pending + 1)
    case CheckActive =>
      s.(pc := if s.active == {} then Waiting else LoopTop)
    case Finish(w, ok) =>
      var piece := s.workers[w].piece;
      SetPhase(s, w, Marked).(
        table := Mark(s.table, piece, if ok then Verified else Missing),
        outcomes := s.outcomes + [Outcome(piece, ok)])
    case Unlist(w) =>
      SetPhase(s, w, Unlisted).(active := s.active - {s.workers[w].piece})
    case Release(w) =>
      SetPhase(s, w, Released).(tokens := s.tokens - 1)
    case Depart(w) =>
      SetPhase(s, w, Gone).(pending := s.pending - 1)
    case Return =>
      s.(pc := Finished(AllVerified(s.table)))
  }

  /** The state in which the main loop starts: NewPieceManager followed by UpdatePeerPieces. */
  ghost predicate Initial(s: Control) {
    && s == Control(LoopTop, s.table, [], {}, 0, 0, [])
    && forall i | i in s.table :: s.table[i].status == Missing
  }

  ghost predicate Executes(s: Control, steps: seq<Step>, s': Control)
    decreases |steps|
  {
    if steps == [] then s' == s
    else Enabled(s, steps[0]) && Executes(Apply(s, steps[0]), steps[1..], s')
  }

  // ---------------------------------------------------------------- invariant

  function HoldsToken(x: Worker): nat {
    if x.phase.Running? || x.phase.Marked? || x.phase.Unlisted? then 1 else 0
  }

  function IsAlive(x: Worker): nat {
    if x.phase.Gone? then 0 else 1
  }

  function Queue(s: Control): seq<nat> {
    if s.pc.Launching? then s.pc.queue else []
  }

  ghost predicate HasWorker(s: Control, piece: nat) {
    exists w :: 0 <= w < |s.workers| && s.workers[w] == Worker(piece, Running)
  }

  /** Somebody will still write the status of this piece. */
  ghost predicate Attended(s: Control, piece: nat) {
    piece in Queue(s) || HasWorker(s, piece)
  }

  /** How the last worker to finish with this piece ended, if one has finished. */
  function LastOutcome(outcomes: seq<Outcome>, piece: nat): Option<bool> {
    if outcomes == [] then None
    else
      var last := outcomes[|outcomes| - 1];
      if last.piece == piece then Some(last.ok) else LastOutcome(outcomes[..|outcomes| - 1], piece)
  }

  ghost predicate Accounted(s: Control) {
    && s.tokens == Tally(s.workers, HoldsToken) <= MAX_CONCURRENT
    && s.pending == Tally(s.workers, IsAlive)
  }

  ghost predicate Known(s: Control) {
    && (forall i | i in Queue(s) :: i in s.table)
    && (forall w | 0 <= w < |s.workers| :: s.workers[w].piece in s.table)
    && (s.pc.Launching? ==> s.pc.queue != [])
    && (s.pc.TakeBatch? ==> s.pc.limit > 0)
  }

  ghost predicate PieceOk(s: Control, i: nat)
    requires i in s.table
  {
    match s.table[i].status
    case Requested => Attended(s, i)
    case Received => false
    case Verified => LastOutcome(s.outcomes, i) == Some(true)
    case Missing => LastOutcome(s.outcomes, i) != Some(true)
  }

  ghost predicate Settled(s: Control) {
    s.pc.Finished? ==> s.pending == 0 && s.pc.ok == AllVerified(s.table)
  }

  /** Worker x has not removed its piece from the active downloads yet. */
  predicate IsListed(x: Worker) {
    x.phase.Running? || x.phase.Marked?
  }

  ghost predicate HasListed(s: Control, piece: nat, listed: bool) {
    exists w :: 0 <= w < |s.workers| && s.workers[w].piece == piece && IsListed(s.workers[w]) == listed
  }

  /**
   An active piece has a worker that has not removed it yet. The piece of such a worker is active,
   unless another worker on the same piece has removed it already.
   */
  ghost predicate ActiveOk(s: Control) {
    && (forall i | i in s.active :: HasListed(s, i, true))
    && (forall w | 0 <= w < |s.workers| && IsListed(s.workers[w]) ::
          s.workers[w].piece in s.active || HasListed(s, s.workers[w].piece, false))
  }

  ghost predicate Inv(s: Control) {
    && Accounted(s)
    && Known(s)
    && ActiveOk(s)
    && (forall i | i in s.table :: PieceOk(s, i))
    && Settled(s)
  }

  lemma InitialInv(s: Control)
    requires Initial(s)
    ensures Inv(s)
  {
  }

  lemma AccountedKept(s: Control, step: Step)
    requires Accounted(s) && Enabled(s, step)
    ensures Accounted(Apply(s, step))
  {
    match step
    case Launch => Launched(s, s.pc.queue[0]);
    case Finish(w, ok) => Moved(s, w, Marked);
    case Unlist(w) => Moved(s, w, Unlisted);
    case Release(w) => Moved(s, w, Released);
    case Depart(w) => Moved(s, w, Gone);
    case _ =>
  }

  lemma Launched(s: Control, piece: nat)
    ensures Tally(s.workers + [Worker(piece, Running)], HoldsToken) == Tally(s.workers, HoldsToken) + 1
    ensures Tally(s.workers + [Worker(piece, Running)], IsAlive) == Tally(s.workers, IsAlive) + 1
  {
    TallyAppend(s.workers, Worker(piece, Running), HoldsToken);
    TallyAppend(s.workers, Worker(piece, Running), IsAlive);
  }

  /** What one worker's change of phase does to the two counters. */
  lemma Moved(s: Control, w: nat, phase: Phase)
    requires w < |s.workers|
    ensures var x := s.workers[w];
            var x' := x.(phase := phase);
            var workers' := SetPhase(s, w, phase).workers;
            && Tally(workers', HoldsToken) + HoldsToken(x) == Tally(s.workers, HoldsToken) + HoldsToken(x')
            && Tally(workers', IsAlive) + IsAlive(x) == Tally(s.workers, IsAlive) + IsAlive(x')
  {
    var x' := s.workers[w].(phase := phase);
    TallyUpdate(s.workers, w, x', HoldsToken);
    TallyUpdate(s.workers, w, x', IsAlive);
  }

  lemma AllGone(s: Control)
    requires s.pending == Tally(s.workers, IsAlive) == 0
    ensures forall w | 0 <= w < |s.workers| :: s.workers[w].phase == Gone
  {
    forall w | 0 <= w < |s.workers| ensures s.workers[w].phase == Gone {
      TallyAtLeast(s.workers, w, IsAlive);
    }
  }

  lemma LastOutcomeAppend(outcomes: seq<Outcome>, o: Outcome, piece: nat)
    ensures LastOutcome(outcomes + [o], piece) ==
            if o.piece == piece then Some(o.ok) else LastOutcome(outcomes, piece)
  {
    assert (outcomes + [o])[..|outcomes|] == outcomes;
  }

  /** A step that neither marks nor launches keeps every piece attended that was. */
  lemma AttendedKept(s: Control, step: Step, i: nat)
    requires Inv(s) && Enabled(s, step) && Attended(s, i)
    requires step.Finish? ==> s.workers[step.w].piece != i
    ensures Attended(Apply(s, step), i)
  {
    var s' := Apply(s, step);
    if HasWorker(s, i) {
      var w :| 0 <= w < |s.workers| && s.workers[w] == Worker(i, Running);
      assert s'.workers[w] == s.workers[w];
    } else if step.Launch? {
      assert s.pc.queue == [s.pc.queue[0]] + s.pc.queue[1..];
      assert s'.workers[|s.workers|] == Worker(s.pc.queue[0], Running);
    }
  }

  lemma PieceOkKept(s: Control, step: Step, i: nat)
    requires Inv(s) && Enabled(s, step) && i in s.table
    ensures i in Apply(s, step).table && PieceOk(Apply(s, step), i)
  {
    assert PieceOk(s, i);
    var s' := Apply(s, step);
    if step.Finish? {
      LastOutcomeAppend(s.outcomes, Outcome(s.workers[step.w].piece, step.ok), i);
      if s.workers[step.w].piece != i && s.table[i].status == Requested {
        AttendedKept(s, step, i);
      }
    } else if step.GetBatch? && i in step.batch {
      assert i in Queue(s');
    } else if s.table[i].status == Requested {
      AttendedKept(s, step, i);
    }
  }

  lemma KnownKept(s: Control, step: Step)
    requires Inv(s) && Enabled(s, step)
    ensures Known(Apply(s, step))
  {
    var s' := Apply(s, step);
    assert s'.table.Keys == s.table.Keys;
    if step.GetBatch? {
      forall i | i in Queue(s') ensures i in s'.table {
        assert i in Elements(step.batch);
      }
    }
  }

  /** A worker's listing of its piece changes only when it removes it. */
  lemma ListedKept(s: Control, step: Step, i: nat, listed: bool)
    requires Enabled(s, step) && HasListed(s, i, listed)
    requires listed && step.Unlist? ==> s.workers[step.w].piece != i
    ensures HasListed(Apply(s, step), i, listed)
  {
    var w :| 0 <= w < |s.workers| && s.workers[w].piece == i && IsListed(s.workers[w]) == listed;
    var s' := Apply(s, step);
    assert s'.workers[w].piece == i && IsListed(s'.workers[w]) == listed;
  }

  lemma NowListed(s: Control, step: Step)
    requires Enabled(s, step)
    ensures step.Launch? ==> HasListed(Apply(s, step), s.pc.queue[0], true)
    ensures step.Unlist? ==> HasListed(Apply(s, step), s.workers[step.w].piece, false)
  {
    var s' := Apply(s, step);
    if step.Launch? {
      assert s'.workers[|s.workers|] == Worker(s.pc.queue[0], Running);
    } else if step.Unlist? {
      assert s'.workers[step.w] == Worker(s.workers[step.w].piece, Unlisted);
    }
  }

  lemma ActiveKept(s: Control, step: Step)
    requires ActiveOk(s) && Enabled(s, step)
    ensures ActiveOk(Apply(s, step))
  {
    var s' := Apply(s, step);
    NowListed(s, step);
    forall i | i in s'.active ensures HasListed(s', i, true) {
      if i in s.active {
        ListedKept(s, step, i, true);
      }
    }
    forall w | 0 <= w < |s'.workers| && IsListed(s'.workers[w])
      ensures s'.workers[w].piece in s'.active || HasListed(s', s'.workers[w].piece, false)
    {
      if w < |s.workers| && s.workers[w].piece !in s.active {
        ListedKept(s, step, s.workers[w].piece, false);
      }
    }
  }

  lemma SettledKept(s: Control, step: Step)
    requires Inv(s) && Enabled(s, step)
    ensures Settled(Apply(s, step))
  {
    if s.pc.Finished? {
      AllGone(s);
    }
  }

  lemma InvKept(s: Control, step: Step)
    requires Inv(s) && Enabled(s, step)
    ensures Inv(Apply(s, step))
  {
    AccountedKept(s, step);
    KnownKept(s, step);
    SettledKept(s, step);
    ActiveKept(s, step);
    var s' := Apply(s, step);
    assert s'.table.Keys == s.table.Keys;
    forall i | i in s'.table ensures PieceOk(s', i) {
      PieceOkKept(s, step, i);
    }
  }

  lemma {:induction false} InvReached(s: Control, steps: seq<Step>, s': Control)
    requires Inv(s) && Executes(s, steps, s')
    ensures Inv(s')
    decreases |steps|
  {
    if steps != [] {
      InvKept(s, steps[0]);
      InvReached(Apply(s, steps[0]), steps[1..], s');
    }
  }

  // ---------------------------------------------------------------- no piece is lost

  /**
   In every reachable state: a requested piece has a worker running or queued in the current
   batch; the semaphore count is the number of workers holding a token and never exceeds its
   capacity; and once the wait group has drained no piece is left requested.
   */
  lemma NoLostPiece(s0: Control, steps: seq<Step>, s: Control)
    requires Initial(s0) && Executes(s0, steps, s)
    ensures forall i | i in s.table && s.table[i].status == Requested :: Attended(s, i)
    ensures s.tokens == Tally(s.workers, HoldsToken) <= 10
    ensures s.pending == 0 && Queue(s) == [] ==> WithStatus(s.table, Requested) == {}
  {
    InitialInv(s0);
    InvReached(s0, steps, s);
    forall i | i in s.table && s.table[i].status == Requested ensures Attended(s, i) {
      assert PieceOk(s, i);
    }
    if s.pending == 0 && Queue(s) == [] {
      AllGone(s);
      assert forall i | i in s.table :: s.table[i].status != Requested;
    }
  }

  /**
   The exact result: DownloadFile returns nil if and only if for every piece the worker that
   finished last with it succeeded.
   */
  lemma ResultExact(s0: Control, steps: seq<Step>, s: Control)
    requires Initial(s0) && Executes(s0, steps, s) && s.pc.Finished?
    ensures s.pc.ok <==> forall i | i in s.table :: LastOutcome(s.outcomes, i) == Some(true)
  {
    InitialInv(s0);
    InvReached(s0, steps, s);
    AllGone(s);
    forall i | i in s.table
      ensures s.table[i].status == Verified <==> LastOutcome(s.outcomes, i) == Some(true)
    {
      assert PieceOk(s, i);
    }
  }

  // ---------------------------------------------------------------- failure-free runs

  function Failed(o: Outcome): nat {
    if o.ok then 0 else 1
  }

  function Failures(s: Control): nat {
    Tally(s.outcomes, Failed)
  }

  /** Once the main goroutine has seen nothing left to do, nothing is left to do. */
  ghost predicate Completed(s: Control) {
    s.pc.EmptyBatch? || s.pc.Waiting? || s.pc.Finished? ==> AllVerified(s.table)
  }

  lemma PeersKept(s: Control, step: Step)
    requires Enabled(s, step)
    ensures Apply(s, step).table.Keys == s.table.Keys
    ensures forall i | i in s.table :: Apply(s, step).table[i].peers == s.table[i].peers
  {
  }

  /** A verified piece is lost exactly when a worker on that same piece finishes with a failure. */
  lemma VerifiedLostExactly(s: Control, step: Step, i: nat)
    requires Enabled(s, step)
    requires i in s.table && s.table[i].status == Verified
    ensures Apply(s, step).table[i].status != Verified
            <==> step.Finish? && s.workers[step.w].piece == i && !step.ok
  {
    if step.GetBatch? {
      assert i !in Elements(step.batch);
    }
  }

  lemma CompletedKept(s: Control, step: Step)
    requires Inv(s) && Enabled(s, step) && Peered(s.table) && Completed(s)
    requires Failures(Apply(s, step)) == 0
    ensures Completed(Apply(s, step))
  {
    if AllVerified(s.table) {
      VerifiedStays(s, step);
    } else if step.GetBatch? && step.batch == [] {
      assert forall i | i in s.table :: PieceOk(s, i);
      EmptyPoolMeansDone(s.table);
    }
  }

  /** As long as no worker fails, everything verified stays so. */
  lemma VerifiedStays(s: Control, step: Step)
    requires Enabled(s, step) && AllVerified(s.table) && Failures(Apply(s, step)) == 0
    ensures AllVerified(Apply(s, step).table)
  {
    if step.Finish? {
      TallyAppend(s.outcomes, Outcome(s.workers[step.w].piece, step.ok), Failed);
    }
    PeersKept(s, step);
    forall i | i in s.table ensures Apply(s, step).table[i].status == Verified {
      VerifiedLostExactly(s, step, i);
    }
  }

  lemma FailuresGrow(s: Control, step: Step)
    requires Enabled(s, step)
    ensures Failures(s) <= Failures(Apply(s, step))
  {
    if step.Finish? {
      TallyAppend(s.outcomes, Outcome(s.workers[step.w].piece, step.ok), Failed);
    }
  }

  lemma {:induction false} FailuresGrowOverRun(s: Control, steps: seq<Step>, s': Control)
    requires Executes(s, steps, s')
    ensures Failures(s) <= Failures(s')
    decreases |steps|
  {
    if steps != [] {
      FailuresGrow(s, steps[0]);
      FailuresGrowOverRun(Apply(s, steps[0]), steps[1..], s');
    }
  }

  lemma {:induction false} CompletedReached(s: Control, steps: seq<Step>, s': Control)
    requires Inv(s) && Peered(s.table) && Completed(s)
    requires Executes(s, steps, s') && Failures(s') == 0
    ensures Completed(s')
    decreases |steps|
  {
    if steps != [] {
      var next := Apply(s, steps[0]);
      FailuresGrowOverRun(next, steps[1..], s');
      FailuresGrow(s, steps[0]);
      InvKept(s, steps[0]);
      PeersKept(s, steps[0]);
      CompletedKept(s, steps[0]);
      CompletedReached(next, steps[1..], s');
    }
  }

  /** A piece that no peer offers is never handed out and stays missing. */
  ghost predicate Orphaned(s: Control, i: nat) {
    && i in s.table && s.table[i].peers == {} && s.table[i].status == Missing
    && i !in Queue(s)
    && forall w | 0 <= w < |s.workers| :: s.workers[w].piece != i
  }

  lemma OrphanKept(s: Control, step: Step, i: nat)
    requires Orphaned(s, i) && Enabled(s, step)
    ensures Orphaned(Apply(s, step), i)
  {
    if step.GetBatch? {
      assert i !in Elements(step.batch);
    }
  }

  lemma {:induction false} OrphanThroughout(s: Control, steps: seq<Step>, s': Control, i: nat)
    requires Orphaned(s, i) && Executes(s, steps, s')
    ensures Orphaned(s', i)
    decreases |steps|
  {
    if steps != [] {
      OrphanKept(s, steps[0], i);
      OrphanThroughout(Apply(s, steps[0]), steps[1..], s', i);
    }
  }

  /** A nil result means that every piece had a peer at the start; peers that connect later do not help. */
  lemma NilNeedsPeers(s0: Control, steps: seq<Step>, s: Control)
    requires Initial(s0) && Executes(s0, steps, s) && s.pc == Finished(true)
    ensures Peered(s0.table)
  {
    InitialInv(s0);
    InvReached(s0, steps, s);
    forall i | i in s0.table ensures s0.table[i].peers != {} {
      if Orphaned(s0, i) {
        OrphanThroughout(s0, steps, s, i);
      }
    }
  }

  /**
   When no worker fails, a download that returns from its loop returns nil if and only if every
   piece had a peer at the start.
   */
  lemma FailureFreeResult(s0: Control, steps: seq<Step>, s: Control)
    requires Initial(s0) && Executes(s0, steps, s)
    requires Failures(s) == 0 && s.pc.Finished?
    ensures s.pc.ok <==> Peered(s0.table)
  {
    InitialInv(s0);
    InvReached(s0, steps, s);
    if Peered(s0.table) {
      CompletedReached(s0, steps, s);
    } else if s.pc.ok {
      NilNeedsPeers(s0, steps, s);
    }
  }

  // ---------------------------------------------------------------- progress

  predicate Returned(s: Control) {
    s.pc.Finished? || s.pc.Aborted?
  }

  /** The step that belongs to a worker's current phase; a running worker may end either way. */
  function WorkerStep(s: Control, w: nat, ok: bool): Step
    requires w < |s.workers| && !s.workers[w].phase.Gone?
  {
    match s.workers[w].phase
    case Running => Finish(w, ok)
    case Marked => Unlist(w)
    case Unlisted => Release(w)
    case Released => Depart(w)
  }

  lemma WorkerNeverBlocks(s: Control, w: nat, ok: bool)
    requires Inv(s) && w < |s.workers| && !s.workers[w].phase.Gone?
    ensures Enabled(s, WorkerStep(s, w, ok))
  {
    TallyAtLeast(s.workers, w, HoldsToken);
    TallyAtLeast(s.workers, w, IsAlive);
  }

  // ---------------------------------------------------------------- termination

  /**
   What is left to do, compared left to right. Every step of a worker and every launch decreases it,
   and the other steps of the main goroutine leave it alone.
   */
  datatype Rank = Rank(failuresLeft: int, unverified: nat, surplus: nat, winding: nat, free: int)

  predicate Below(a: Rank, b: Rank) {
    || a.failuresLeft < b.failuresLeft
    || (a.failuresLeft == b.failuresLeft
        && (|| a.unverified < b.unverified
            || (a.unverified == b.unverified
                && (|| a.surplus < b.surplus
                    || (a.surplus == b.surplus
                        && (|| a.winding < b.winding
                            || (a.winding == b.winding && a.free < b.free)))))))
  }

  function Unverified(t: Table): set<nat> {
    set i | i in t && t[i].status != Verified
  }

  /** A running worker whose piece is not among those still unverified. */
  function IsSurplus(open: set<nat>): Worker -> nat {
    (x: Worker) => if x.phase.Running? && x.piece !in open then 1 else 0
  }

  function IsClosed(open: set<nat>): nat -> nat {
    (i: nat) => if i in open then 0 else 1
  }

  /** The deferred calls a worker still has to make. */
  function Winding(x: Worker): nat {
    match x.phase
    case Running => 0
    case Marked => 3
    case Unlisted => 2
    case Released => 1
    case Gone => 0
  }

  /** How far the main goroutine is from its next launch, or from the end if there is nothing to launch. */
  ghost function MainRank(s: Control): nat {
    match s.pc
    case CountPeers => if Pool(s.table) == {} then 7 else 3
    case TakeBatch(_) => if Pool(s.table) == {} then 6 else 2
    case EmptyBatch => 5
    case LoopTop => if Pool(s.table) == {} && !AllVerified(s.table) then 8 else 4
    case Launching(_) => 1
    case Waiting => 1
    case Finished(_) => 0
    case Aborted => 0
  }

  function RankOf(s: Control, budget: nat): Rank {
    var open := Unverified(s.table);
    Rank(budget - Failures(s),
         |open|,
         Tally(s.workers, IsSurplus(open)) + Tally(Queue(s), IsClosed(open)),
         Tally(s.workers, Winding),
         MAX_CONCURRENT - s.tokens)
  }

  /** Reading an empty peer list, whether or not reconnecting then succeeds. */
  predicate IsPoll(step: Step) {
    step.ReadPeers? && step.count == 0
  }

  /** Finding nothing to hand out while downloads are active. */
  predicate IsWait(s: Control, step: Step) {
    step.CheckActive? && s.active != {}
  }

  /** The steps of the main goroutine that launch nothing. */
  predicate IsMain(step: Step) {
    step.CheckComplete? || step.ReadPeers? || step.GetBatch? || step.CheckActive? || step.Return?
  }

  lemma {:induction false} TallyHead<T>(s: seq<T>, weight: T -> nat)
    requires s != []
    ensures Tally(s, weight) == weight(s[0]) + Tally(s[1..], weight)
  {
    if |s| > 1 {
      TallyHead(s[..|s| - 1], weight);
      assert s[1..][..|s| - 2] == s[..|s| - 1][1..];
    }
  }

  lemma {:induction false} TallyZero<T>(s: seq<T>, weight: T -> nat)
    requires forall x | x in s :: weight(x) == 0
    ensures Tally(s, weight) == 0
  {
    if s != [] {
      TallyZero(s[..|s| - 1], weight);
    }
  }

  lemma UnverifiedEmpty(t: Table)
    ensures Unverified(t) == {} <==> AllVerified(t)
  {
    if Unverified(t) == {} {
      forall i | i in t ensures t[i].status == Verified {
        assert i !in Unverified(t);
      }
    } else {
      var i := Member(Unverified(t));
      assert t[i].status != Verified;
    }
  }

  lemma FinishDecreases(s: Control, w: nat, ok: bool, budget: nat)
    requires Inv(s) && Enabled(s, Finish(w, ok))
    ensures Below(RankOf(Apply(s, Finish(w, ok)), budget), RankOf(s, budget))
  {
    var s' := Apply(s, Finish(w, ok));
    var piece := s.workers[w].piece;
    var open, open' := Unverified(s.table), Unverified(s'.table);
    TallyAppend(s.outcomes, Outcome(piece, ok), Failed);
    if ok {
      assert open' == open - {piece};
      if piece !in open {
        assert open' == open;
        TallyUpdate(s.workers, w, s'.workers[w], IsSurplus(open));
      }
    }
  }

  lemma BatchKeepsRank(s: Control, batch: seq<nat>, budget: nat)
    requires Inv(s) && Enabled(s, GetBatch(batch))
    ensures RankOf(Apply(s, GetBatch(batch)), budget) == RankOf(s, budget)
  {
    BatchKeepsUnverified(s.table, batch);
    TallyZero(batch, IsClosed(Unverified(s.table)));
  }

  /** Only unverified pieces are handed out, and they stay unverified. */
  lemma BatchKeepsUnverified(t: Table, batch: seq<nat>)
    requires Elements(batch) <= Pool(t)
    ensures Unverified(MarkAll(t, Elements(batch), Requested)) == Unverified(t)
    ensures forall i | i in batch :: i in Unverified(t)
  {
    forall i | i in batch ensures i in Unverified(t) {
      assert i in Elements(batch);
    }
  }

  lemma LaunchDecreases(s: Control, budget: nat)
    requires Inv(s) && Enabled(s, Launch)
    ensures Below(RankOf(Apply(s, Launch), budget), RankOf(s, budget))
  {
    var open := Unverified(s.table);
    var queue := s.pc.queue;
    var x := Worker(queue[0], Running);
    TallyAppend(s.workers, x, IsSurplus(open));
    TallyAppend(s.workers, x, Winding);
    TallyHead(queue, IsClosed(open));
  }

  lemma WindDownDecreases(s: Control, step: Step, budget: nat)
    requires Inv(s) && Enabled(s, step) && (step.Unlist? || step.Release? || step.Depart?)
    ensures Below(RankOf(Apply(s, step), budget), RankOf(s, budget))
  {
    var open := Unverified(s.table);
    match step
    case Unlist(w) => MovedOn(s, w, Unlisted, open);
    case Release(w) => MovedOn(s, w, Released, open);
    case Depart(w) => MovedOn(s, w, Gone, open);
  }

  /** A worker that makes a deferred call is no more surplus than before and has fewer calls left. */
  lemma MovedOn(s: Control, w: nat, phase: Phase, open: set<nat>)
    requires w < |s.workers| && !s.workers[w].phase.Running? && !phase.Running?
    requires Winding(s.workers[w].(phase := phase)) < Winding(s.workers[w])
    ensures Tally(SetPhase(s, w, phase).workers, IsSurplus(open)) == Tally(s.workers, IsSurplus(open))
    ensures Tally(SetPhase(s, w, phase).workers, Winding) < Tally(s.workers, Winding)
  {
    var x' := s.workers[w].(phase := phase);
    TallyUpdate(s.workers, w, x', IsSurplus(open));
    TallyUpdate(s.workers, w, x', Winding);
  }

  /** Launches and the steps of workers decrease the rank; the other steps leave it alone. */
  lemma StepDecreases(s: Control, step: Step, budget: nat)
    requires Inv(s) && Enabled(s, step)
    ensures if IsMain(step) then RankOf(Apply(s, step), budget) == RankOf(s, budget)
            else Below(RankOf(Apply(s, step), budget), RankOf(s, budget))
  {
    match step
    case Finish(w, ok) => FinishDecreases(s, w, ok, budget);
    case GetBatch(batch) => BatchKeepsRank(s, batch, budget);
    case Launch => LaunchDecreases(s, budget);
    case CheckComplete =>
    case ReadPeers(_, _) =>
    case CheckActive =>
    case Return =>
    case _ => WindDownDecreases(s, step, budget);
  }

  /** The main goroutine gets nearer to a launch or to the end, unless it polls or waits. */
  lemma MainDecreases(s: Control, step: Step)
    requires Inv(s) && Enabled(s, step) && IsMain(step) && !IsPoll(step) && !IsWait(s, step)
    ensures MainRank(Apply(s, step)) < MainRank(s)
  {
    if step.GetBatch? {
      assert step.batch == [] <==> Pool(s.table) == {};
    } else if step.CheckComplete? && AllVerified(s.table) {
      assert Pool(s.table) == {};
    }
  }

  // ---------------------------------------------------------------- how the loop ends

  /** DownloadFile returns early if and only if it found no peer and could not reconnect. */
  lemma {:induction false} AbortedExactly(s: Control, steps: seq<Step>, s': Control)
    requires Executes(s, steps, s') && !s.pc.Aborted?
    ensures s'.pc.Aborted? <==> ReadPeers(0, false) in steps
    decreases |steps|
  {
    if steps != [] {
      var next := Apply(s, steps[0]);
      AbortsNow(s, steps[0]);
      assert ReadPeers(0, false) in steps <==> steps[0] == ReadPeers(0, false) || ReadPeers(0, false) in steps[1..];
      if next.pc.Aborted? {
        StaysAborted(next, steps[1..], s');
      } else {
        AbortedExactly(next, steps[1..], s');
      }
    }
  }

  lemma AbortsNow(s: Control, step: Step)
    requires Enabled(s, step) && !s.pc.Aborted?
    ensures Apply(s, step).pc.Aborted? <==> step == ReadPeers(0, false)
  {
  }

  lemma {:induction false} StaysAborted(s: Control, steps: seq<Step>, s': Control)
    requires Executes(s, steps, s') && s.pc.Aborted?
    ensures s'.pc.Aborted?
    decreases |steps|
  {
    if steps != [] {
      StaysAborted(Apply(s, steps[0]), steps[1..], s');
    }
  }

  /**
   The loop is left only when everything is verified, or when for every worker that has not removed
   its piece from the active downloads another worker on that piece has.
   */
  lemma LeavesLoopOnlyWhen(s0: Control, steps: seq<Step>, s: Control, step: Step)
    requires Initial(s0) && Executes(s0, steps, s) && Enabled(s, step)
    requires !s.pc.Waiting? && Apply(s, step).pc.Waiting?
    ensures AllVerified(s.table)
            || forall w | 0 <= w < |s.workers| && IsListed(s.workers[w]) :: HasListed(s, s.workers[w].piece, false)
  {
    InitialInv(s0);
    InvReached(s0, steps, s);
  }

  /** A step of a worker goroutine. */
  predicate IsWorkerStep(step: Step) {
    step.Finish? || step.Unlist? || step.Release? || step.Depart?
  }

  /** With n peers connected the next batch has 20 n pieces, or all there are to hand out. */
  lemma BatchSize(s: Control, n: nat, reconnected: bool, between: seq<Step>, s': Control, batch: seq<nat>)
    requires s.pc.CountPeers? && n > 0
    requires Executes(Apply(s, ReadPeers(n, reconnected)), between, s')
    requires forall k | 0 <= k < |between| :: IsWorkerStep(between[k])
    requires Enabled(s', GetBatch(batch))
    ensures |batch| == Min(20 * n, |Pool(s'.table)|)
  {
    PcKept(Apply(s, ReadPeers(n, reconnected)), between, s');
  }

  lemma {:induction false} PcKept(s: Control, steps: seq<Step>, s': Control)
    requires Executes(s, steps, s') && forall k | 0 <= k < |steps| :: IsWorkerStep(steps[k])
    ensures s'.pc == s.pc
    decreases |steps|
  {
    if steps != [] {
      assert IsWorkerStep(steps[0]);
      PcKept(Apply(s, steps[0]), steps[1..], s');
    }
  }

  /** No piece has a peer and no worker was ever launched. */
  ghost predicate Hopeless(s: Control) {
    && s.workers == [] && s.active == {} && s.pending == 0 && !s.pc.Launching?
    && s.table != map[]
    && forall i | i in s.table :: s.table[i].peers == {} && s.table[i].status == Missing
  }

  function Stage(pc: Pc): nat {
    match pc
    case LoopTop => 0
    case CountPeers => 1
    case TakeBatch(_) => 2
    case EmptyBatch => 3
    case Waiting => 4
    case _ => 5
  }

  lemma HopelessStep(s: Control, step: Step)
    requires Hopeless(s) && Enabled(s, step) && !IsPoll(step) && (s.pc.Finished? ==> !s.pc.ok)
    ensures Hopeless(Apply(s, step)) && Stage(Apply(s, step).pc) == Stage(s.pc) + 1
    ensures Apply(s, step).pc.Finished? ==> !Apply(s, step).pc.ok
    ensures !Apply(s, step).pc.Aborted?
  {
    var i :| i in s.table;
    assert s.table[i].status == Missing;
    if step.GetBatch? {
      assert Pool(s.table) == {};
      assert Elements(step.batch) == {};
      assert MarkAll(s.table, {}, Requested) == s.table;
    }
  }

  lemma {:induction false} HopelessRun(s: Control, steps: seq<Step>, s': Control)
    requires Hopeless(s) && Executes(s, steps, s') && !s.pc.Aborted? && (s.pc.Finished? ==> !s.pc.ok)
    requires forall k | 0 <= k < |steps| :: !IsPoll(steps[k])
    ensures Stage(s'.pc) == Stage(s.pc) + |steps| <= 5
    ensures Stage(s'.pc) == 5 <==> s'.pc == Finished(false)
    decreases |steps|
  {
    if steps != [] {
      assert !IsPoll(steps[0]);
      HopelessStep(s, steps[0]);
      HopelessRun(Apply(s, steps[0]), steps[1..], s');
    }
  }

  /**
   A download none of whose pieces has a peer launches nothing, does not hang, and returns an error
   after exactly five steps, however many peers are connected by then.
   */
  lemma WithoutPeers(s0: Control, steps: seq<Step>, s: Control)
    requires Initial(s0) && Executes(s0, steps, s)
    requires s0.table != map[] && forall i | i in s0.table :: s0.table[i].peers == {}
    requires forall k | 0 <= k < |steps| :: !IsPoll(steps[k])
    ensures |steps| <= 5 && (|steps| == 5 <==> s.pc == Finished(false))
  {
    HopelessRun(s0, steps, s);
  }
}
