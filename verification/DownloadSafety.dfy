/** What every interleaving of a download keeps, and that a nil result means the right file. */
module DownloadSafety {
  import opened Common
  import opened PieceTable
  import opened Chunking
  import opened Assembly
  import opened DownloadSystem
  import C = DownloadControl

  ghost predicate Valid(cfg: Config) {
    cfg.chunkSize > 0
  }

  /** Handler h is the open handler that worker w registered for its piece, and was read `taken` times. */
  ghost predicate Listens(cfg: Config, s: System, w: nat, h: nat, taken: nat)
    requires w < |s.ctl.workers|
  {
    && h < |s.handlers|
    && var x := s.handlers[h];
       x.open && x.owner == w && x.file == cfg.file && x.chunk == s.ctl.workers[w].piece && x.taken == taken
  }

  ghost predicate Holds(cfg: Config, out: OutFile, piece: nat) {
    HasChunk(cfg.src, cfg.chunkSize, piece) && HasWhole(out, cfg.src, cfg.chunkSize, piece)
  }

  ghost predicate WorkerOk(cfg: Config, s: System, w: nat)
    requires w < |s.inner| == |s.ctl.workers|
  {
    match s.inner[w]
    case Awaiting(_, _, _, h) => Listens(cfg, s, w, h, 0)
    case Writing(_, _, h, data, _) =>
      Listens(cfg, s, w, h, 1)
      && HasChunk(cfg.src, cfg.chunkSize, s.ctl.workers[w].piece)
      && data == ChunkAt(cfg.src, cfg.chunkSize, s.ctl.workers[w].piece)
    case Succeeded => Holds(cfg, s.out, s.ctl.workers[w].piece)
    case _ => true
  }

  ghost predicate HandlersOk(cfg: Config, s: System) {
    forall k | 0 <= k < |s.handlers| :: HandlerOk(cfg, s.handlers[k])
  }

  ghost predicate NetOk(cfg: Config, s: System) {
    && (forall m | m in s.net :: Honest(cfg, m))
    && (forall c | c in s.calls :: Honest(cfg, c.0))
  }

  predicate Done(i: Inner) {
    i.Succeeded? || i.Failed?
  }

  /** A worker that has written its piece's status has returned from downloadChunk. */
  ghost predicate WorkersOk(cfg: Config, s: System) {
    && |s.inner| == |s.ctl.workers|
    && (forall w: nat | w < |s.inner| :: s.ctl.workers[w].phase.Running? || Done(s.inner[w]))
    && forall w: nat | w < |s.inner| :: WorkerOk(cfg, s, w)
  }

  /** The handler that a worker is currently listening on, if any. */
  function Current(i: Inner): Option<nat> {
    match i
    case Awaiting(_, _, _, h) => Some(h)
    case Writing(_, _, h, _, _) => Some(h)
    case _ => None
  }

  /** An open handler of this download is the one its worker is listening on. */
  ghost predicate OpenOk(cfg: Config, s: System) {
    forall k: nat | k < |s.handlers| && s.handlers[k].open && s.handlers[k].file == cfg.file ::
      s.handlers[k].owner < |s.inner| && Current(s.inner[s.handlers[k].owner]) == Some(k)
  }

  /** Whatever a worker reported as downloaded is in the file, and stays there. */
  ghost predicate OutcomesOk(cfg: Config, s: System) {
    forall k | 0 <= k < |s.ctl.outcomes| :: s.ctl.outcomes[k].ok ==> Holds(cfg, s.out, s.ctl.outcomes[k].piece)
  }

  ghost predicate TableOk(cfg: Config, s: System)
    requires Valid(cfg)
  {
    forall i: nat :: i in s.ctl.table <==> i < Total(cfg)
  }

  ghost predicate Inv(cfg: Config, s: System)
    requires Valid(cfg)
  {
    && C.Inv(s.ctl)
    && TableOk(cfg, s)
    && NetOk(cfg, s)
    && HandlersOk(cfg, s)
    && WorkersOk(cfg, s)
    && OpenOk(cfg, s)
    && Faithful(s.out, cfg.src)
    && OutcomesOk(cfg, s)
  }

  lemma InitialInv(cfg: Config, s: System)
    requires Valid(cfg) && Initial(cfg, s)
    ensures Inv(cfg, s)
  {
    C.InitialInv(s.ctl);
  }

  /** Covering more of the file loses no chunk. */
  lemma HoldsGrows(cfg: Config, out: OutFile, out': OutFile, piece: nat)
    requires Holds(cfg, out, piece)
    requires forall p: nat | Covered(out, p) :: Covered(out', p)
    ensures Holds(cfg, out', piece)
  {
  }

  lemma NetKept(cfg: Config, s: System, a: Action)
    requires Valid(cfg) && NetOk(cfg, s) && Enabled(cfg, s, a)
    ensures NetOk(cfg, Apply(cfg, s, a))
  {
    if a.Answer? {
      AcceptedIffCounted(cfg.src, cfg.chunkSize, a.chunk);
    }
  }

  /** A step leaves a handler alone that it does not deliver to and that its worker is not listening on. */
  lemma HandlerStays(cfg: Config, s: System, a: Action, k: nat)
    requires Valid(cfg) && Enabled(cfg, s, a) && k < |s.handlers|
    requires a.Deliver? ==> a.h != k
    requires !a.Control? && !IsEnvironment(a) && a.w < |s.inner| ==> Current(s.inner[a.w]) != Some(k)
    ensures var s' := Apply(cfg, s, a); k < |s'.handlers| && s'.handlers[k] == s.handlers[k]
  {
  }

  lemma DeliverIs(cfg: Config, s: System, msg: Message, h: nat)
    requires Valid(cfg) && Enabled(cfg, s, Deliver(msg, h))
    ensures var s' := Apply(cfg, s, Deliver(msg, h));
            && s' == s.(handlers := s.handlers[h := Handle(s.handlers[h], msg)], calls := s.calls - multiset{(msg, h)})
  {
  }

  /** What a step may do to one handler: nothing, close it, hand it a message, or take its response. */
  ghost predicate HandlerMoves(cfg: Config, h: Handler, h': Handler) {
    || h' == h
    || h' == h.(open := false)
    || (exists m :: Honest(cfg, m) && h' == Handle(h, m))
    || (h.response.Some? && h.taken == 0 && h' == h.(response := None, taken := 1))
  }

  lemma DeliverMoves(cfg: Config, s: System, msg: Message, h: nat, k: nat)
    requires Honest(cfg, msg) && h < |s.handlers| && k < |s.handlers|
    ensures HandlerMoves(cfg, s.handlers[k], s.handlers[h := Handle(s.handlers[h], msg)][k])
  {
  }

  lemma HandlersMove(cfg: Config, s: System, a: Action, k: nat)
    requires Valid(cfg) && WorkersOk(cfg, s) && NetOk(cfg, s) && Enabled(cfg, s, a) && k < |s.handlers|
    ensures var s' := Apply(cfg, s, a);
            k < |s'.handlers| && HandlerMoves(cfg, s.handlers[k], s'.handlers[k])
  {
    if a.Deliver? {
      DeliverIs(cfg, s, a.msg, a.h);
      DeliverMoves(cfg, s, a.msg, a.h, k);
    } else if a.Control? || IsEnvironment(a) {
      HandlerStays(cfg, s, a, k);
    } else {
      WorkerMovesHandler(cfg, s, a, k);
    }
  }

  lemma WorkerMovesHandler(cfg: Config, s: System, a: Action, k: nat)
    requires Valid(cfg) && WorkersOk(cfg, s) && Enabled(cfg, s, a) && k < |s.handlers|
    requires !a.Control? && !IsEnvironment(a)
    ensures var s' := Apply(cfg, s, a);
            k < |s'.handlers| && HandlerMoves(cfg, s.handlers[k], s'.handlers[k])
  {
    assert WorkerOk(cfg, s, a.w);
  }

  /** Only registering makes the list longer, by an empty handler that is open if the request was sent. */
  lemma HandlersGrow(cfg: Config, s: System, a: Action)
    requires Valid(cfg) && Enabled(cfg, s, a)
    ensures var s' := Apply(cfg, s, a);
            || |s'.handlers| == |s.handlers|
            || (a.Ask? && |s'.handlers| == |s.handlers| + 1
                && s'.handlers[|s.handlers|]
                   == Handler(cfg.file, s.ctl.workers[a.w].piece, a.sent, None, false, a.w, 0, 0))
  {
  }

  lemma HandlersKept(cfg: Config, s: System, a: Action)
    requires Valid(cfg) && Inv(cfg, s) && Enabled(cfg, s, a)
    ensures HandlersOk(cfg, Apply(cfg, s, a))
  {
    HandlersGrow(cfg, s, a);
    var s' := Apply(cfg, s, a);
    forall k | 0 <= k < |s'.handlers| ensures HandlerOk(cfg, s'.handlers[k]) {
      if k < |s.handlers| {
        assert HandlerOk(cfg, s.handlers[k]);
        HandlersMove(cfg, s, a, k);
      }
    }
  }

  /** No other worker and no delivery takes a worker's handler away. */
  lemma ListensKept(cfg: Config, s: System, a: Action, v: nat, h: nat, taken: nat)
    requires Valid(cfg) && Enabled(cfg, s, a) && WorkersOk(cfg, s)
    requires !a.Control? && v < |s.inner| && Listens(cfg, s, v, h, taken)
    requires !IsEnvironment(a) ==> a.w != v
    ensures Apply(cfg, s, a).ctl == s.ctl
    ensures Listens(cfg, Apply(cfg, s, a), v, h, taken)
  {
    OthersStay(cfg, s, a, v);
    if a.Deliver? && a.h == h {
      DeliverIs(cfg, s, a.msg, h);
    } else {
      if !IsEnvironment(a) && a.w < |s.inner| {
        assert WorkerOk(cfg, s, a.w);
      }
      HandlerStays(cfg, s, a, h);
    }
  }

  /** An action that is not worker v's own, nor the main goroutine's, leaves v where it is. */
  lemma OthersStay(cfg: Config, s: System, a: Action, v: nat)
    requires Valid(cfg) && Enabled(cfg, s, a) && v < |s.inner|
    requires !a.Control? && (!IsEnvironment(a) ==> a.w != v)
    ensures var s' := Apply(cfg, s, a);
            s'.ctl == s.ctl && |s'.inner| == |s.inner| && s'.inner[v] == s.inner[v]
  {
  }

  /** If the worker stays, its handler stays and the file only grows, its situation stays as it was. */
  lemma SituationKept(cfg: Config, s: System, s': System, v: nat)
    requires v < |s.inner| == |s.ctl.workers| == |s'.inner| && s'.ctl == s.ctl && s'.inner[v] == s.inner[v]
    requires forall h, taken | Listens(cfg, s, v, h, taken) :: Listens(cfg, s', v, h, taken)
    requires forall p: nat | Covered(s.out, p) :: Covered(s'.out, p)
    requires WorkerOk(cfg, s, v)
    ensures WorkerOk(cfg, s', v)
  {
    if s.inner[v].Succeeded? {
      HoldsGrows(cfg, s.out, s'.out, s.ctl.workers[v].piece);
    }
  }

  /** A step of one worker leaves every other worker's situation as it was. */
  lemma OtherWorkerKept(cfg: Config, s: System, a: Action, v: nat)
    requires Valid(cfg) && Enabled(cfg, s, a) && WorkersOk(cfg, s)
    requires !a.Control? && v < |s.inner|
    requires !IsEnvironment(a) ==> a.w != v
    requires forall p: nat | Covered(s.out, p) :: Covered(Apply(cfg, s, a).out, p)
    ensures |Apply(cfg, s, a).inner| == |Apply(cfg, s, a).ctl.workers| > v
    ensures WorkerOk(cfg, Apply(cfg, s, a), v)
  {
    OthersStay(cfg, s, a, v);
    var s' := Apply(cfg, s, a);
    forall h, taken | Listens(cfg, s, v, h, taken) ensures Listens(cfg, s', v, h, taken) {
      ListensKept(cfg, s, a, v, h, taken);
    }
    assert WorkerOk(cfg, s, v);
    SituationKept(cfg, s, s', v);
  }

  lemma ControlKeepsPieces(cfg: Config, s: System, step: C.Step, w: nat)
    requires Valid(cfg) && Enabled(cfg, s, Control(step)) && |s.inner| == |s.ctl.workers| > w
    ensures var s' := Apply(cfg, s, Control(step));
            && |s'.inner| == |s'.ctl.workers| > w && s'.inner[w] == s.inner[w]
            && s'.ctl.workers[w].piece == s.ctl.workers[w].piece
            && s'.handlers == s.handlers && s'.out == s.out
            && (s'.ctl.workers[w].phase.Running? <==> s.ctl.workers[w].phase.Running? && step != C.Finish(w, true)
                                                      && step != C.Finish(w, false))
  {
  }

  /** A step of the main goroutine or of a deferred call adds at most one worker, at its beginning. */
  lemma ControlAddsWorker(cfg: Config, s: System, step: C.Step)
    requires Valid(cfg) && Enabled(cfg, s, Control(step)) && |s.inner| == |s.ctl.workers|
    ensures var s' := Apply(cfg, s, Control(step));
            && |s'.inner| == |s'.ctl.workers|
            && forall w: nat | |s.inner| <= w < |s'.inner| ::
                 s'.inner[w] == Attempting(0) && s'.ctl.workers[w].phase.Running?
  {
  }

  lemma ControlWorkersKept(cfg: Config, s: System, step: C.Step)
    requires Valid(cfg) && WorkersOk(cfg, s) && Enabled(cfg, s, Control(step))
    ensures WorkersOk(cfg, Apply(cfg, s, Control(step)))
  {
    var s' := Apply(cfg, s, Control(step));
    ControlAddsWorker(cfg, s, step);
    forall w: nat | w < |s'.inner|
      ensures WorkerOk(cfg, s', w)
      ensures s'.ctl.workers[w].phase.Running? || Done(s'.inner[w])
    {
      if w < |s.inner| {
        ControlKeepsPieces(cfg, s, step, w);
        assert WorkerOk(cfg, s, w);
      }
    }
  }

  /** What one write does: the file stays faithful and covered, and a clean write completes the chunk. */
  lemma WriteKept(cfg: Config, s: System, w: nat, attempt: Attempt)
    requires Valid(cfg) && Inv(cfg, s) && Enabled(cfg, s, WriteOnce(w, attempt))
    ensures var s' := WriteStep(cfg, s, w, attempt);
            && Faithful(s'.out, cfg.src)
            && (forall p: nat | Covered(s.out, p) :: Covered(s'.out, p))
            && (s'.inner[w].Succeeded? ==> Holds(cfg, s'.out, s.ctl.workers[w].piece))
  {
    assert WorkerOk(cfg, s, w);
    var piece := s.ctl.workers[w].piece;
    ChunkBounds(cfg.src, cfg.chunkSize, piece);
    PrefixWriteFaithful(s.out, cfg.src, cfg.chunkSize, piece, attempt.written);
  }

  lemma OutKept(cfg: Config, s: System, a: Action)
    requires Valid(cfg) && Inv(cfg, s) && Enabled(cfg, s, a)
    ensures Faithful(Apply(cfg, s, a).out, cfg.src)
    ensures forall p: nat | Covered(s.out, p) :: Covered(Apply(cfg, s, a).out, p)
  {
    if a.WriteOnce? {
      WriteKept(cfg, s, a.w, a.attempt);
    } else {
      assert Apply(cfg, s, a).out == s.out;
    }
  }

  lemma WorkersKept(cfg: Config, s: System, a: Action)
    requires Valid(cfg) && Inv(cfg, s) && Enabled(cfg, s, a)
    ensures WorkersOk(cfg, Apply(cfg, s, a))
  {
    if a.Control? {
      ControlWorkersKept(cfg, s, a.step);
    } else {
      OutKept(cfg, s, a);
      PlacesKept(cfg, s, a);
      var s' := Apply(cfg, s, a);
      forall v: nat | v < |s'.inner| ensures WorkerOk(cfg, s', v) {
        if !IsEnvironment(a) && a.w == v {
          OwnWorkerKept(cfg, s, a);
        } else {
          OtherWorkerKept(cfg, s, a, v);
        }
      }
    }
  }

  lemma PlacesKept(cfg: Config, s: System, a: Action)
    requires Valid(cfg) && WorkersOk(cfg, s) && Enabled(cfg, s, a) && !a.Control?
    ensures var s' := Apply(cfg, s, a);
            && s'.ctl == s.ctl && |s'.inner| == |s.inner|
            && forall v: nat | v < |s'.inner| :: s'.ctl.workers[v].phase.Running? || Done(s'.inner[v])
  {
    var s' := Apply(cfg, s, a);
    assert s'.ctl == s.ctl && |s'.inner| == |s.inner|;
    forall v: nat | v < |s'.inner| ensures s'.ctl.workers[v].phase.Running? || Done(s'.inner[v]) {
      if IsEnvironment(a) || a.w != v {
        OthersStay(cfg, s, a, v);
      } else {
        assert At(s, v);
      }
    }
  }

  lemma OwnWorkerKept(cfg: Config, s: System, a: Action)
    requires Valid(cfg) && Inv(cfg, s) && Enabled(cfg, s, a)
    requires !a.Control? && !IsEnvironment(a)
    ensures |Apply(cfg, s, a).inner| == |Apply(cfg, s, a).ctl.workers| > a.w
    ensures WorkerOk(cfg, Apply(cfg, s, a), a.w)
  {
    assert WorkerOk(cfg, s, a.w);
    if a.TakeResponse? {
      ReceivedOk(cfg, s, a.w);
    } else if a.WriteOnce? {
      WrittenOk(cfg, s, a.w, a.attempt);
    }
  }

  lemma ReceivedOk(cfg: Config, s: System, w: nat)
    requires Valid(cfg) && Inv(cfg, s) && Enabled(cfg, s, TakeResponse(w))
    ensures |Receive(s, w).inner| == |Receive(s, w).ctl.workers| > w && WorkerOk(cfg, Receive(s, w), w)
  {
    assert WorkerOk(cfg, s, w);
    assert HandlerOk(cfg, s.handlers[s.inner[w].h]);
  }

  lemma WrittenOk(cfg: Config, s: System, w: nat, attempt: Attempt)
    requires Valid(cfg) && Inv(cfg, s) && Enabled(cfg, s, WriteOnce(w, attempt))
    ensures var s' := WriteStep(cfg, s, w, attempt);
            |s'.inner| == |s'.ctl.workers| > w && WorkerOk(cfg, s', w)
  {
    assert WorkerOk(cfg, s, w);
    WriteKept(cfg, s, w, attempt);
  }

  /** A handler that is still open after its worker's own step is still the one it listens on. */
  lemma OwnHandlerKept(cfg: Config, s: System, a: Action, k: nat)
    requires Valid(cfg) && Enabled(cfg, s, a) && !a.Control? && !IsEnvironment(a)
    requires a.w < |s.inner| && k < |s.handlers| && Current(s.inner[a.w]) == Some(k)
    ensures var s' := Apply(cfg, s, a);
            && a.w < |s'.inner| && k < |s'.handlers|
            && (s'.handlers[k].open ==> Current(s'.inner[a.w]) == Some(k))
  {
  }

  lemma OwnerStays(cfg: Config, s: System, a: Action, k: nat)
    requires Valid(cfg) && WorkersOk(cfg, s) && OpenOk(cfg, s) && Enabled(cfg, s, a)
    requires k < |s.handlers| && s.handlers[k].open && s.handlers[k].file == cfg.file
    requires k < |Apply(cfg, s, a).handlers| && Apply(cfg, s, a).handlers[k].open
    ensures var s', owner := Apply(cfg, s, a), s.handlers[k].owner;
            owner < |s'.inner| && Current(s'.inner[owner]) == Some(k)
  {
    var owner := s.handlers[k].owner;
    if a.Control? {
      ControlKeepsPieces(cfg, s, a.step, owner);
    } else if IsEnvironment(a) || a.w != owner {
      OthersStay(cfg, s, a, owner);
    } else {
      OwnHandlerKept(cfg, s, a, k);
    }
  }

  lemma NewHandlerListened(cfg: Config, s: System, a: Action)
    requires Valid(cfg) && Enabled(cfg, s, a) && a.Ask? && a.sent
    ensures var s' := Apply(cfg, s, a); a.w < |s'.inner| && Current(s'.inner[a.w]) == Some(|s.handlers|)
  {
  }

  lemma OpenKept(cfg: Config, s: System, a: Action)
    requires Valid(cfg) && WorkersOk(cfg, s) && NetOk(cfg, s) && OpenOk(cfg, s) && Enabled(cfg, s, a)
    ensures OpenOk(cfg, Apply(cfg, s, a))
  {
    var s' := Apply(cfg, s, a);
    HandlersGrow(cfg, s, a);
    forall k: nat | k < |s'.handlers| && s'.handlers[k].open && s'.handlers[k].file == cfg.file
      ensures s'.handlers[k].owner < |s'.inner| && Current(s'.inner[s'.handlers[k].owner]) == Some(k)
    {
      if k < |s.handlers| {
        HandlersMove(cfg, s, a, k);
        OwnerStays(cfg, s, a, k);
      } else {
        NewHandlerListened(cfg, s, a);
      }
    }
  }

  lemma OutcomesKept(cfg: Config, s: System, a: Action)
    requires Valid(cfg) && Inv(cfg, s) && Enabled(cfg, s, a)
    ensures OutcomesOk(cfg, Apply(cfg, s, a))
  {
    OutKept(cfg, s, a);
    var s' := Apply(cfg, s, a);
    if a.Control? && a.step.Finish? {
      assert WorkerOk(cfg, s, a.step.w);
    }
    forall k | 0 <= k < |s'.ctl.outcomes| && s'.ctl.outcomes[k].ok
      ensures Holds(cfg, s'.out, s'.ctl.outcomes[k].piece)
    {
      if k < |s.ctl.outcomes| {
        HoldsGrows(cfg, s.out, s'.out, s.ctl.outcomes[k].piece);
      }
    }
  }

  lemma InvKept(cfg: Config, s: System, a: Action)
    requires Valid(cfg) && Inv(cfg, s) && Enabled(cfg, s, a)
    ensures Inv(cfg, Apply(cfg, s, a))
  {
    NetKept(cfg, s, a);
    HandlersKept(cfg, s, a);
    WorkersKept(cfg, s, a);
    OpenKept(cfg, s, a);
    OutKept(cfg, s, a);
    OutcomesKept(cfg, s, a);
    if a.Control? {
      C.InvKept(s.ctl, a.step);
      C.PeersKept(s.ctl, a.step);
    }
  }

  lemma {:induction false} InvReached(cfg: Config, s: System, actions: seq<Action>, s': System)
    requires Valid(cfg) && Inv(cfg, s) && Executes(cfg, s, actions, s')
    ensures Inv(cfg, s')
    decreases |actions|
  {
    if actions != [] {
      InvKept(cfg, s, actions[0]);
      InvReached(cfg, Apply(cfg, s, actions[0]), actions[1..], s');
    }
  }

  ghost predicate Reachable(cfg: Config, s: System)
    requires Valid(cfg)
  {
    exists s0, actions :: Initial(cfg, s0) && Executes(cfg, s0, actions, s)
  }

  lemma ReachableInv(cfg: Config, s: System)
    requires Valid(cfg) && Reachable(cfg, s)
    ensures Inv(cfg, s)
  {
    var s0, actions :| Initial(cfg, s0) && Executes(cfg, s0, actions, s);
    InitialInv(cfg, s0);
    InvReached(cfg, s0, actions, s);
  }

  // ---------------------------------------------------------------- main results

  lemma {:induction false} LastOutcomeOccurs(outcomes: seq<C.Outcome>, piece: nat) returns (k: nat)
    requires C.LastOutcome(outcomes, piece) == Some(true)
    ensures k < |outcomes| && outcomes[k] == C.Outcome(piece, true)
  {
    k := |outcomes| - 1;
    if outcomes[k].piece != piece {
      k := LastOutcomeOccurs(outcomes[..k], piece);
    }
  }

  /**
   End to end: in every interleaving of batches, duplicate workers, retries, delayed, dropped or
   duplicated responses and partial writes, a nil result means that the output file is the source
   file byte for byte.
   */
  lemma NilMeansRightFile(cfg: Config, s: System)
    requires Valid(cfg) && Reachable(cfg, s)
    requires s.ctl.pc == C.Finished(true)
    ensures Content(s.out) == cfg.src
  {
    ReachableInv(cfg, s);
    forall i: nat | i < Total(cfg) ensures C.Outcome(i, true) in s.ctl.outcomes {
      assert i in s.ctl.table;
      assert C.PieceOk(s.ctl, i);
      var k := LastOutcomeOccurs(s.ctl.outcomes, i);
    }
    EveryPieceOnceIsEnough(cfg, s);
  }

  /**
   Once every piece has been downloaded successfully at some time the file is the source, whatever
   later workers did and whatever DownloadFile returns.
   */
  lemma EveryPieceOnceIsEnough(cfg: Config, s: System)
    requires Valid(cfg) && Reachable(cfg, s)
    requires forall i: nat | i < Total(cfg) :: C.Outcome(i, true) in s.ctl.outcomes
    ensures Content(s.out) == cfg.src
  {
    ReachableInv(cfg, s);
    forall i: nat | i < NumChunks(|cfg.src|, cfg.chunkSize)
      ensures HasChunk(cfg.src, cfg.chunkSize, i) && HasWhole(s.out, cfg.src, cfg.chunkSize, i)
    {
      assert C.Outcome(i, true) in s.ctl.outcomes;
      var k :| 0 <= k < |s.ctl.outcomes| && s.ctl.outcomes[k] == C.Outcome(i, true);
      assert Holds(cfg, s.out, s.ctl.outcomes[k].piece);
    }
    WholeFile(s.out, cfg.src, cfg.chunkSize);
  }

  /** At no time does the file hold a wrong byte, and a piece marked verified is whole at that time. */
  lemma NeverWrong(cfg: Config, s: System)
    requires Valid(cfg) && Reachable(cfg, s)
    ensures Faithful(s.out, cfg.src)
    ensures forall i: nat | i in s.ctl.table && s.ctl.table[i].status == Verified :: Holds(cfg, s.out, i)
  {
    ReachableInv(cfg, s);
    forall i: nat | i in s.ctl.table && s.ctl.table[i].status == Verified
      ensures Holds(cfg, s.out, i)
    {
      assert C.PieceOk(s.ctl, i);
      var k := LastOutcomeOccurs(s.ctl.outcomes, i);
    }
  }

  /**
   Correlation: the data a worker is writing is the chunk its piece names, however late or often
   responses to other requests arrived, and it came through a handler that this worker registered.
   */
  lemma CorrelationSafe(cfg: Config, s: System, w: nat)
    requires Valid(cfg) && Reachable(cfg, s)
    requires Writes(s, w)
    ensures var piece := s.ctl.workers[w].piece;
            && HasChunk(cfg.src, cfg.chunkSize, piece)
            && s.inner[w].data == ChunkAt(cfg.src, cfg.chunkSize, piece)
            && s.handlers[s.inner[w].h].owner == w
            && s.handlers[s.inner[w].h].chunk == piece
  {
    ReachableInv(cfg, s);
    assert WorkerOk(cfg, s, w);
  }

  /**
   A response that comes late, or for somebody else, has no effect that matters. A call changes an
   open handler only if its worker is listening on it, and then only by a response for that worker's
   own piece; and nobody listens on a closed handler, which a call that tested `done` before the
   close may still change.
   */
  lemma LateResponseIgnored(cfg: Config, s: System, h: nat, msg: Message)
    requires Valid(cfg) && Reachable(cfg, s) && h < |s.handlers| && s.handlers[h].file == cfg.file
    requires Handle(s.handlers[h], msg) != s.handlers[h]
    ensures s.handlers[h].open ==>
              var w := s.handlers[h].owner;
              && w < |s.inner| == |s.ctl.workers| && Current(s.inner[w]) == Some(h)
              && (msg.Response? ==> msg.file == cfg.file && msg.chunk == s.ctl.workers[w].piece)
    ensures !s.handlers[h].open ==> Unheard(s, h)
  {
    ReachableInv(cfg, s);
    if s.handlers[h].open {
      assert WorkerOk(cfg, s, s.handlers[h].owner);
    } else {
      ClosedUnheard(cfg, s, h);
    }
  }

  /** No worker is listening on the handler. */
  ghost predicate Unheard(s: System, h: nat) {
    forall w: nat | w < |s.inner| :: Current(s.inner[w]) != Some(h)
  }

  lemma ClosedUnheard(cfg: Config, s: System, h: nat)
    requires Valid(cfg) && WorkersOk(cfg, s) && h < |s.handlers| && !s.handlers[h].open
    ensures Unheard(s, h)
  {
    forall w: nat | w < |s.inner| ensures Current(s.inner[w]) != Some(h) {
      assert WorkerOk(cfg, s, w);
    }
  }

  /** How many calls of the handler with the message are under way. */
  function Underway(s: System, msg: Message, h: nat): nat {
    s.calls[(msg, h)]
  }

  /**
   A closed handler stays closed, nothing is read from it, no new call gets past its test, and what
   still changes it is a call that was under way.
   */
  lemma ClosedStep(cfg: Config, s: System, a: Action, h: nat)
    requires Valid(cfg) && Inv(cfg, s) && Enabled(cfg, s, a) && h < |s.handlers| && !s.handlers[h].open
    ensures var s' := Apply(cfg, s, a);
            && h < |s'.handlers| && !s'.handlers[h].open && s'.handlers[h].taken == s.handlers[h].taken
            && (forall m :: Underway(s', m, h) <= Underway(s, m, h))
            && (s'.handlers[h] != s.handlers[h] ==>
                  a.Deliver? && a.h == h && Underway(s', a.msg, h) < Underway(s, a.msg, h))
  {
    CallsOfClosed(cfg, s, a, h);
    if a.Deliver? && a.h == h {
      DeliverIs(cfg, s, a.msg, h);
    } else {
      ClosedUnheard(cfg, s, h);
      HandlerStays(cfg, s, a, h);
    }
  }

  lemma CallsOfClosed(cfg: Config, s: System, a: Action, h: nat)
    requires Valid(cfg) && Enabled(cfg, s, a) && h < |s.handlers| && !s.handlers[h].open
    ensures forall m :: Underway(Apply(cfg, s, a), m, h) <= Underway(s, m, h)
  {
  }

  /**
   Over any run: once a handler is closed it is never read again, and only calls that had passed the
   test of `done` before it was closed can still put something into it, one response in all.
   */
  lemma {:induction false} ClosedForGood(cfg: Config, s: System, actions: seq<Action>, s': System, h: nat)
    requires Valid(cfg) && Inv(cfg, s) && Executes(cfg, s, actions, s') && h < |s.handlers| && !s.handlers[h].open
    ensures h < |s'.handlers| && !s'.handlers[h].open && s'.handlers[h].taken == s.handlers[h].taken
    ensures s'.handlers[h].accepted <= s.handlers[h].taken + 1
    ensures forall m :: Underway(s', m, h) <= Underway(s, m, h)
    ensures s'.handlers[h] != s.handlers[h] ==> exists m :: Underway(s, m, h) > Underway(s', m, h)
    decreases |actions|
  {
    if actions == [] {
      assert HandlerOk(cfg, s.handlers[h]);
    } else {
      var next := Apply(cfg, s, actions[0]);
      InvKept(cfg, s, actions[0]);
      ClosedStep(cfg, s, actions[0], h);
      ClosedForGood(cfg, next, actions[1..], s', h);
      if next.handlers[h] != s.handlers[h] {
        assert Underway(s, actions[0].msg, h) > Underway(s', actions[0].msg, h);
      } else if s'.handlers[h] != s.handlers[h] {
        var m :| Underway(next, m, h) > Underway(s', m, h);
        assert Underway(s, m, h) > Underway(s', m, h);
      }
    }
  }

  /** A handler yields at most one response to its worker and accepts at most one more than that. */
  lemma HandlerCounts(cfg: Config, s: System, h: nat)
    requires Valid(cfg) && Reachable(cfg, s) && h < |s.handlers|
    ensures s.handlers[h].taken <= 1
    ensures s.handlers[h].taken <= s.handlers[h].accepted <= s.handlers[h].taken + 1
  {
    ReachableInv(cfg, s);
    assert HandlerOk(cfg, s.handlers[h]);
  }

  /**
   Exactly when a handler accepts a second response: its worker has taken the first one, and a call
   that has passed the test of `done` brings another copy of the same chunk. Then either the worker
   is still writing, or the handler has been closed since, and nobody listens any more.
   */
  lemma SecondAcceptedExactly(cfg: Config, s: System, a: Action, h: nat)
    requires Valid(cfg) && Reachable(cfg, s) && Enabled(cfg, s, a) && h < |s.handlers|
    requires s.handlers[h].file == cfg.file && s.handlers[h].accepted == 1
    ensures h < |Apply(cfg, s, a).handlers|
    ensures Apply(cfg, s, a).handlers[h].accepted == 2 <==>
            && a.Deliver? && a.h == h && s.handlers[h].taken == 1
            && a.msg.Response? && a.msg.file == cfg.file && a.msg.chunk == s.handlers[h].chunk
    ensures s.handlers[h].taken == 1 && s.handlers[h].open ==>
              && Writes(s, s.handlers[h].owner) && s.inner[s.handlers[h].owner].h == h
              && s.ctl.workers[s.handlers[h].owner].piece == s.handlers[h].chunk
    ensures !s.handlers[h].open ==> Unheard(s, h)
  {
    ReachableInv(cfg, s);
    assert HandlerOk(cfg, s.handlers[h]);
    SecondAcceptedStep(cfg, s, a, h);
    if s.handlers[h].open {
      assert WorkerOk(cfg, s, s.handlers[h].owner);
    } else {
      ClosedUnheard(cfg, s, h);
    }
  }

  lemma SecondAcceptedStep(cfg: Config, s: System, a: Action, h: nat)
    requires Valid(cfg) && Enabled(cfg, s, a) && h < |s.handlers|
    requires s.handlers[h].file == cfg.file && s.handlers[h].accepted == 1 && HandlerOk(cfg, s.handlers[h])
    ensures h < |Apply(cfg, s, a).handlers|
    ensures Apply(cfg, s, a).handlers[h].accepted == 2 <==>
            && a.Deliver? && a.h == h && s.handlers[h].taken == 1
            && a.msg.Response? && a.msg.file == cfg.file && a.msg.chunk == s.handlers[h].chunk
  {
    if a.Deliver? && a.h == h {
      DeliverIs(cfg, s, a.msg, h);
    } else {
      AcceptedStays(cfg, s, a, h);
    }
  }

  lemma AcceptedStays(cfg: Config, s: System, a: Action, h: nat)
    requires Valid(cfg) && Enabled(cfg, s, a) && h < |s.handlers| && !(a.Deliver? && a.h == h)
    ensures var s' := Apply(cfg, s, a); h < |s'.handlers| && s'.handlers[h].accepted == s.handlers[h].accepted
  {
  }

  // ---------------------------------------------------------------- the steps are those of the code

  lemma {:induction false} Extend(cfg: Config, s: System, actions: seq<Action>, s': System, a: Action)
    requires Valid(cfg) && Executes(cfg, s, actions, s') && Enabled(cfg, s', a)
    ensures Executes(cfg, s, actions + [a], Apply(cfg, s', a))
    decreases |actions|
  {
    if actions == [] {
      assert [a][1..] == [];
    } else {
      assert (actions + [a])[1..] == actions[1..] + [a];
      Extend(cfg, Apply(cfg, s, actions[0]), actions[1..], s', a);
    }
  }

  /** A call that nothing interrupts. */
  function CallHandler(h: Handler, msg: Message): Handler {
    if h.open then Handle(h, msg) else h
  }

  /** handleRPCMessage calls every registered handler, in order. */
  function Broadcast(handlers: seq<Handler>, msg: Message): seq<Handler> {
    seq(|handlers|, k requires 0 <= k < |handlers| => CallHandler(handlers[k], msg))
  }

  /** The steps of calling the first n handlers in turn. */
  function CallSteps(handlers: seq<Handler>, msg: Message, n: nat): seq<Action>
    requires n <= |handlers|
  {
    if n == 0 then []
    else
      CallSteps(handlers, msg, n - 1)
      + if handlers[n - 1].open then [Enter(msg, n - 1), Deliver(msg, n - 1)] else []
  }

  /** Calling all handlers in turn, if nothing interrupts, is a run of such steps. */
  lemma BroadcastIsDeliveries(cfg: Config, s: System, msg: Message)
    requires Valid(cfg) && msg in s.net
    ensures Executes(cfg, s, CallSteps(s.handlers, msg, |s.handlers|), s.(handlers := Broadcast(s.handlers, msg)))
  {
    var steps, after := CallFirst(cfg, s, msg, |s.handlers|);
    assert s.handlers[..|s.handlers|] == s.handlers;
    assert Broadcast(s.handlers, msg) + s.handlers[|s.handlers|..] == Broadcast(s.handlers, msg);
  }

  function FirstCalled(s: System, msg: Message, n: nat): System
    requires n <= |s.handlers|
  {
    s.(handlers := Broadcast(s.handlers[..n], msg) + s.handlers[n..])
  }

  lemma ExtendTwice(cfg: Config, s: System, actions: seq<Action>, s': System, a: Action, b: Action)
    requires Valid(cfg) && Executes(cfg, s, actions, s')
    requires Enabled(cfg, s', a) && Enabled(cfg, Apply(cfg, s', a), b)
    ensures Executes(cfg, s, actions + [a, b], Apply(cfg, Apply(cfg, s', a), b))
  {
    Extend(cfg, s, actions, s', a);
    Extend(cfg, s, actions + [a], Apply(cfg, s', a), b);
    assert actions + [a] + [b] == actions + [a, b];
  }

  lemma NoneCalled(s: System, msg: Message)
    ensures FirstCalled(s, msg, 0) == s
  {
    assert Broadcast(s.handlers[..0], msg) + s.handlers[0..] == s.handlers;
  }

  lemma OneMoreCalled(cfg: Config, s: System, msg: Message, k: nat, steps: seq<Action>, before: System)
    returns (steps': seq<Action>, after: System)
    requires Valid(cfg) && msg in s.net && k < |s.handlers|
    requires steps == CallSteps(s.handlers, msg, k) && before == FirstCalled(s, msg, k)
    requires Executes(cfg, s, steps, before)
    ensures steps' == CallSteps(s.handlers, msg, k + 1) && after == FirstCalled(s, msg, k + 1)
    ensures Executes(cfg, s, steps', after)
  {
    CallNext(cfg, s, msg, k);
    after := FirstCalled(s, msg, k + 1);
    if s.handlers[k].open {
      steps' := steps + [Enter(msg, k), Deliver(msg, k)];
      ExtendTwice(cfg, s, steps, before, Enter(msg, k), Deliver(msg, k));
    } else {
      steps' := steps;
      assert steps + [] == steps;
    }
  }

  lemma {:induction false} CallFirst(cfg: Config, s: System, msg: Message, n: nat)
    returns (steps: seq<Action>, after: System)
    requires Valid(cfg) && msg in s.net && n <= |s.handlers|
    ensures steps == CallSteps(s.handlers, msg, n) && after == FirstCalled(s, msg, n)
    ensures Executes(cfg, s, steps, after)
  {
    if n == 0 {
      NoneCalled(s, msg);
      steps, after := [], s;
    } else {
      steps, after := CallFirst(cfg, s, msg, n - 1);
      steps, after := OneMoreCalled(cfg, s, msg, n - 1, steps, after);
    }
  }

  lemma CallNext(cfg: Config, s: System, msg: Message, k: nat)
    requires Valid(cfg) && msg in s.net && k < |s.handlers|
    ensures var before, after := FirstCalled(s, msg, k), FirstCalled(s, msg, k + 1);
            if s.handlers[k].open then
              && Enabled(cfg, before, Enter(msg, k))
              && Enabled(cfg, Apply(cfg, before, Enter(msg, k)), Deliver(msg, k))
              && Apply(cfg, Apply(cfg, before, Enter(msg, k)), Deliver(msg, k)) == after
            else before == after
  {
    var before, after := FirstCalled(s, msg, k), FirstCalled(s, msg, k + 1);
    assert before.handlers[k := CallHandler(s.handlers[k], msg)] == after.handlers;
    if s.handlers[k].open {
      assert s.calls + multiset{(msg, k)} - multiset{(msg, k)} == s.calls;
    } else {
      assert before.handlers[k] == s.handlers[k];
    }
  }

  /** The worker's consecutive write steps, until it stops writing. */
  ghost predicate WritesThrough(cfg: Config, s: System, w: nat, attempts: seq<Attempt>, s': System)
    requires Valid(cfg)
    decreases |attempts|
  {
    if attempts == [] then s' == s && !Writes(s, w)
    else
      && Enabled(cfg, s, WriteOnce(w, attempts[0]))
      && WritesThrough(cfg, Apply(cfg, s, WriteOnce(w, attempts[0])), w, attempts[1..], s')
  }

  /** What one write step leads to: it may go on, or stop with the outcome of this attempt. */
  ghost predicate WriteLeadsTo(cfg: Config, s: System, w: nat, a: Attempt, next: System)
    requires Writes(s, w) && a.written <= |s.inner[w].data|
  {
    var i := s.inner[w];
    && next.out == WriteAt(s.out, s.ctl.workers[w].piece * cfg.chunkSize, i.data[..a.written])
    && next.ctl == s.ctl && |next.inner| > w
    && (Writes(next, w) <==> !Clean(a, i.data) && i.tries + 1 < MAX_WRITES)
    && (Writes(next, w) ==> next.inner[w] == i.(tries := i.tries + 1))
    && (!Writes(next, w) ==> (next.inner[w].Succeeded? <==> Clean(a, i.data)))
  }

  lemma WriteStepLeadsTo(cfg: Config, s: System, w: nat, a: Attempt)
    requires Writes(s, w) && a.written <= |s.inner[w].data| <= cfg.chunkSize
    ensures WriteLeadsTo(cfg, s, w, a, WriteStep(cfg, s, w, a))
  {
  }

  /** The first of a worker's write steps, and the rest of them. */
  lemma OneWrite(cfg: Config, s: System, w: nat, attempts: seq<Attempt>, s': System) returns (next: System)
    requires Valid(cfg) && Writes(s, w) && |s.inner[w].data| <= cfg.chunkSize
    requires WritesThrough(cfg, s, w, attempts, s')
    ensures attempts != [] && attempts[0].written <= |s.inner[w].data|
    ensures WriteLeadsTo(cfg, s, w, attempts[0], next)
    ensures WritesThrough(cfg, next, w, attempts[1..], s')
    ensures !Writes(next, w) ==> attempts[1..] == [] && s' == next
  {
    next := Apply(cfg, s, WriteOnce(w, attempts[0]));
    WriteStepLeadsTo(cfg, s, w, attempts[0]);
  }

  /** A failed write step in front of the rest of the call. */
  lemma GoesOn(cfg: Config, s: System, next: System, w: nat, attempts: seq<Attempt>, out: OutFile, ok: bool)
    requires Writes(s, w) && s.inner[w].tries + 1 < 3 && attempts != []
    requires attempts[0].written <= |s.inner[w].data| && !Clean(attempts[0], s.inner[w].data)
    requires next.out == WriteAt(s.out, s.ctl.workers[w].piece * cfg.chunkSize, s.inner[w].data[..attempts[0].written])
    requires Writes(next, w) && next.ctl == s.ctl && next.inner[w] == s.inner[w].(tries := s.inner[w].tries + 1)
    requires OneCall(next.out, next.ctl.workers[w].piece * cfg.chunkSize, next.inner[w].data,
                     3 - next.inner[w].tries, attempts[1..], out, ok)
    ensures OneCall(s.out, s.ctl.workers[w].piece * cfg.chunkSize, s.inner[w].data, 3 - s.inner[w].tries,
                    attempts, out, ok)
  {
    FirstFailed(s.out, s.ctl.workers[w].piece * cfg.chunkSize, s.inner[w].data,
                3 - s.inner[w].tries, attempts, out, ok);
  }

  /**
   A worker's write steps are one call of WriteAndVerifyChunk: at most three attempts of which only
   the last can be clean, the same file content, and success exactly when the last one is.
   */
  lemma {:induction false} WritingIsOneCall(cfg: Config, s: System, w: nat, attempts: seq<Attempt>, s': System)
    requires Valid(cfg) && Writes(s, w) && |s.inner[w].data| <= cfg.chunkSize && s.inner[w].tries < 3
    requires WritesThrough(cfg, s, w, attempts, s')
    ensures |s'.inner| > w
    ensures OneCall(s.out, s.ctl.workers[w].piece * cfg.chunkSize, s.inner[w].data, 3 - s.inner[w].tries,
                    attempts, s'.out, s'.inner[w].Succeeded?)
    decreases |attempts|
  {
    var next := OneWrite(cfg, s, w, attempts, s');
    if Writes(next, w) {
      WritingIsOneCall(cfg, next, w, attempts[1..], s');
      GoesOn(cfg, s, next, w, attempts, s'.out, s'.inner[w].Succeeded?);
    } else {
      OnlyAttempt(s.out, s.ctl.workers[w].piece * cfg.chunkSize, s.inner[w].data,
                  3 - s.inner[w].tries, attempts);
    }
  }
}
