/**
 Runs that exist, for every non-empty file: a complete, fair download from one peer, which shows that
 the assumptions of the liveness theorem can be met; a download that returns an error although the
 file is complete; and handlers that accept a second response, before and after they are closed.
 In these runs no peer comes or goes and every answer is handed to one handler once.
 */
module DownloadWitness {
  import opened Common
  import opened PieceTable
  import opened Chunking
  import opened Assembly
  import opened DownloadSystem
  import opened DownloadSafety
  import opened DownloadLiveness
  import opened DownloadRuns
  import C = DownloadControl

  // ---------------------------------------------------------------- one worker

  const PEER: Peer := "peer"

  /** Worker w is inside downloadChunk at the given place, and the peer is the only one. */
  ghost predicate Place(cfg: Config, s: System, w: nat, i: Inner) {
    && w < |s.inner| == |s.ctl.workers| && s.ctl.workers[w].phase.Running? && s.inner[w] == i
    && s.ctl.workers[w].piece < |cfg.src| && HasChunk(cfg.src, cfg.chunkSize, s.ctl.workers[w].piece)
    && s.peers == {PEER}
  }

  /** Only this worker has moved. */
  ghost predicate OnlyMoved(s: System, s': System, w: nat, i: Inner) {
    && w < |s.inner| && s'.inner == s.inner[w := i]
    && s'.ctl == s.ctl && s'.peers == s.peers
  }

  /** The handler that worker w listens on, when its first response is still to come. */
  ghost predicate Expects(cfg: Config, s: System, w: nat, k: nat, h: nat) {
    && Place(cfg, s, w, Awaiting(k, [], PEER, h)) && h < |s.handlers|
    && s.handlers[h] == Handler(cfg.file, s.ctl.workers[w].piece, true, None, false, w, 0, 0)
    && s.ctl.workers[w].piece in s.requests
  }

  lemma DoSnapshot(cfg: Config, s0: System, actions: seq<Action>, s: System, w: nat, k: nat)
    returns (actions': seq<Action>, s': System)
    requires Valid(cfg) && Executes(cfg, s0, actions, s) && Plain(actions) && Place(cfg, s, w, Attempting(k))
    ensures Executes(cfg, s0, actions', s') && Plain(actions') && SameTraffic(actions, actions')
    ensures s' == s.(inner := s.inner[w := Asking(k, [PEER])])
  {
    assert multiset([PEER]) == multiset({PEER});
    actions', s' := Do(cfg, s0, actions, s, Snapshot(w, [PEER]));
  }

  lemma DoAsk(cfg: Config, s0: System, actions: seq<Action>, s: System, w: nat, k: nat)
    returns (actions': seq<Action>, s': System)
    requires Valid(cfg) && Executes(cfg, s0, actions, s) && Plain(actions) && Place(cfg, s, w, Asking(k, [PEER]))
    ensures Executes(cfg, s0, actions', s') && Plain(actions')
    ensures var piece := s.ctl.workers[w].piece;
            s' == s.(inner := s.inner[w := Awaiting(k, [], PEER, |s.handlers|)],
                     handlers := s.handlers + [Handler(cfg.file, piece, true, None, false, w, 0, 0)],
                     requests := s.requests + {piece})
    ensures Tally(actions', IsEntry) == Tally(actions, IsEntry)
    ensures Tally(actions', IsAnswer) == Tally(actions, IsAnswer)
    ensures Tally(actions', IsAsk) == Tally(actions, IsAsk) + 1
  {
    actions', s' := Do(cfg, s0, actions, s, Ask(w, true));
    assert [PEER][1..] == [];
  }

  /** The worker asks the peer, through a new handler. */
  lemma AskPeerOnce(cfg: Config, s0: System, actions: seq<Action>, s: System, w: nat, k: nat)
    returns (actions': seq<Action>, s': System)
    requires Valid(cfg) && Executes(cfg, s0, actions, s) && Plain(actions) && Place(cfg, s, w, Attempting(k))
    ensures Executes(cfg, s0, actions', s') && Plain(actions')
    ensures OnlyMoved(s, s', w, Awaiting(k, [], PEER, |s.handlers|)) && Expects(cfg, s', w, k, |s.handlers|)
    ensures |s'.handlers| == |s.handlers| + 1
    ensures Tally(actions', IsEntry) == Tally(actions, IsEntry)
    ensures Tally(actions', IsAnswer) == Tally(actions, IsAnswer)
    ensures Tally(actions', IsAsk) == Tally(actions, IsAsk) + 1
  {
    actions', s' := DoSnapshot(cfg, s0, actions, s, w, k);
    assert Place(cfg, s', w, Asking(k, [PEER]));
    MovedTwice(s.inner, w, Asking(k, [PEER]), Awaiting(k, [], PEER, |s.handlers|));
    actions', s' := DoAsk(cfg, s0, actions', s', w, k);
  }

  lemma MovedTwice<T>(s: seq<T>, w: nat, x: T, y: T)
    requires w < |s|
    ensures s[w := x][w := y] == s[w := y]
  {
  }

  lemma ReplyIs(cfg: Config, chunk: nat) returns (reply: Message)
    requires Valid(cfg) && HasChunk(cfg.src, cfg.chunkSize, chunk)
    ensures SeederReply(cfg, chunk) == Some(reply)
    ensures reply == Response(cfg.file, chunk, ChunkAt(cfg.src, cfg.chunkSize, chunk))
    ensures |reply.data| <= cfg.chunkSize
  {
    AcceptedIffCounted(cfg.src, cfg.chunkSize, chunk);
    ChunkBounds(cfg.src, cfg.chunkSize, chunk);
    reply := SeederReply(cfg, chunk).value;
  }

  /** The peer answers a request. */
  lemma AnswerOnce(cfg: Config, s0: System, actions: seq<Action>, s: System, w: nat, k: nat, h: nat, reply: Message)
    returns (actions': seq<Action>, s': System)
    requires Valid(cfg) && Executes(cfg, s0, actions, s) && Plain(actions) && Expects(cfg, s, w, k, h)
    requires SeederReply(cfg, s.ctl.workers[w].piece) == Some(reply)
    requires Tally(actions, IsAnswer) < Tally(actions, IsAsk)
    ensures Executes(cfg, s0, actions', s') && Plain(actions')
    ensures s' == s.(net := s.net + {reply})
    ensures Tally(actions', IsEntry) == Tally(actions, IsEntry)
    ensures Tally(actions', IsAnswer) == Tally(actions, IsAnswer) + 1
    ensures Tally(actions', IsAsk) == Tally(actions, IsAsk)
  {
    actions', s' := Do(cfg, s0, actions, s, Answer(s.ctl.workers[w].piece));
  }

  /** A call of handler h, in its two steps. */
  lemma CallOnce(cfg: Config, s0: System, actions: seq<Action>, s: System, h: nat, msg: Message)
    returns (actions': seq<Action>, s': System)
    requires Valid(cfg) && Executes(cfg, s0, actions, s) && Plain(actions)
    requires msg in s.net && h < |s.handlers| && s.handlers[h].open
    requires Tally(actions, IsEntry) < Tally(actions, IsAnswer)
    ensures Executes(cfg, s0, actions', s') && Plain(actions')
    ensures s' == s.(handlers := s.handlers[h := Handle(s.handlers[h], msg)])
    ensures Tally(actions', IsEntry) == Tally(actions, IsEntry) + 1
    ensures Tally(actions', IsAnswer) == Tally(actions, IsAnswer)
  {
    actions', s' := Do(cfg, s0, actions, s, Enter(msg, h));
    actions', s' := Do(cfg, s0, actions', s', Deliver(msg, h));
    assert s.calls + multiset{(msg, h)} - multiset{(msg, h)} == s.calls;
  }

  lemma DoTake(cfg: Config, s0: System, actions: seq<Action>, s: System, w: nat, k: nat, h: nat, reply: Message)
    returns (actions': seq<Action>, s': System)
    requires Valid(cfg) && Executes(cfg, s0, actions, s) && Plain(actions)
    requires Place(cfg, s, w, Awaiting(k, [], PEER, h)) && h < |s.handlers|
    requires s.handlers[h].response == Some(reply) && reply.Response?
    ensures Executes(cfg, s0, actions', s') && Plain(actions') && SameTraffic(actions, actions')
    ensures s' == s.(inner := s.inner[w := Writing(k, [], h, reply.data, 0)],
                     handlers := s.handlers[h := s.handlers[h].(response := None, taken := s.handlers[h].taken + 1)])
  {
    actions', s' := Do(cfg, s0, actions, s, TakeResponse(w));
  }

  /** The worker writes everything in one go and closes the handler. */
  lemma DoWrite(cfg: Config, s0: System, actions: seq<Action>, s: System, w: nat, k: nat, h: nat, data: seq<byte>)
    returns (actions': seq<Action>, s': System)
    requires Valid(cfg) && Executes(cfg, s0, actions, s) && Plain(actions)
    requires Place(cfg, s, w, Writing(k, [], h, data, 0)) && h < |s.handlers| && |data| <= cfg.chunkSize
    ensures Executes(cfg, s0, actions', s') && Plain(actions') && SameTraffic(actions, actions')
    ensures OnlyMoved(s, s', w, Succeeded)
    ensures s'.handlers == s.handlers[h := s.handlers[h].(open := false)] && s'.calls == s.calls
  {
    actions', s' := Do(cfg, s0, actions, s, WriteOnce(w, Attempt(|data|, false)));
  }

  /** The worker's first response arrives. */
  lemma Replied(cfg: Config, s0: System, actions: seq<Action>, s: System, w: nat, k: nat, h: nat, reply: Message)
    returns (actions': seq<Action>, s': System)
    requires Valid(cfg) && Executes(cfg, s0, actions, s) && Plain(actions) && Expects(cfg, s, w, k, h)
    requires SeederReply(cfg, s.ctl.workers[w].piece) == Some(reply)
    requires Tally(actions, IsAnswer) < Tally(actions, IsAsk)
    ensures Executes(cfg, s0, actions', s') && Plain(actions')
    ensures s'.ctl == s.ctl && s'.inner == s.inner && s'.peers == s.peers && |s'.handlers| == |s.handlers|
    ensures s'.handlers[h].response == Some(reply)
  {
    NowBalanced(actions);
    actions', s' := AnswerOnce(cfg, s0, actions, s, w, k, h, reply);
    actions', s' := CallOnce(cfg, s0, actions', s', h, reply);
  }

  /** A worker downloads its piece at the first attempt. */
  lemma FetchPiece(cfg: Config, s0: System, actions: seq<Action>, s: System, w: nat)
    returns (actions': seq<Action>, s': System)
    requires Valid(cfg) && Executes(cfg, s0, actions, s) && Plain(actions) && Place(cfg, s, w, Attempting(0))
    ensures Executes(cfg, s0, actions', s') && Plain(actions')
    ensures OnlyMoved(s, s', w, Succeeded)
  {
    var h := |s.handlers|;
    NowBalanced(actions);
    var reply := ReplyIs(cfg, s.ctl.workers[w].piece);
    actions', s' := AskPeerOnce(cfg, s0, actions, s, w, 0);
    actions', s' := Replied(cfg, s0, actions', s', w, 0, h, reply);
    MovedTwice(s.inner, w, Awaiting(0, [], PEER, h), Writing(0, [], h, reply.data, 0));
    actions', s' := DoTake(cfg, s0, actions', s', w, 0, h, reply);
    MovedTwice(s.inner, w, Writing(0, [], h, reply.data, 0), Succeeded);
    actions', s' := DoWrite(cfg, s0, actions', s', w, 0, h, reply.data);
  }

  lemma DoTimeout(cfg: Config, s0: System, actions: seq<Action>, s: System, w: nat, k: nat, h: nat)
    returns (actions': seq<Action>, s': System)
    requires Valid(cfg) && Executes(cfg, s0, actions, s) && Plain(actions)
    requires Place(cfg, s, w, Awaiting(k, [], PEER, h)) && h < |s.handlers|
    ensures Executes(cfg, s0, actions', s') && Plain(actions') && SameTraffic(actions, actions')
    ensures OnlyMoved(s, s', w, Asking(k, [])) && |s'.handlers| == |s.handlers|
  {
    actions', s' := Do(cfg, s0, actions, s, Timeout(w));
  }

  lemma DoNextAttempt(cfg: Config, s0: System, actions: seq<Action>, s: System, w: nat, k: nat)
    returns (actions': seq<Action>, s': System)
    requires Valid(cfg) && Executes(cfg, s0, actions, s) && Plain(actions) && Place(cfg, s, w, Asking(k, []))
    ensures Executes(cfg, s0, actions', s') && Plain(actions') && SameTraffic(actions, actions')
    ensures OnlyMoved(s, s', w, AfterAttempt(k)) && |s'.handlers| == |s.handlers|
  {
    actions', s' := Do(cfg, s0, actions, s, NextAttempt(w));
  }

  /** The peer does not answer, and the attempt ends. */
  lemma SilentRound(cfg: Config, s0: System, actions: seq<Action>, s: System, w: nat, k: nat)
    returns (actions': seq<Action>, s': System)
    requires Valid(cfg) && Executes(cfg, s0, actions, s) && Plain(actions) && Place(cfg, s, w, Attempting(k))
    ensures Executes(cfg, s0, actions', s') && Plain(actions')
    ensures OnlyMoved(s, s', w, AfterAttempt(k)) && |s'.handlers| == |s.handlers| + 1
    ensures Tally(actions', IsEntry) == Tally(actions, IsEntry)
    ensures Tally(actions', IsAnswer) == Tally(actions, IsAnswer)
    ensures Tally(actions', IsAsk) == Tally(actions, IsAsk) + 1
  {
    actions', s' := AskPeerOnce(cfg, s0, actions, s, w, k);
    MovedTwice(s.inner, w, Awaiting(k, [], PEER, |s.handlers|), Asking(k, []));
    actions', s' := DoTimeout(cfg, s0, actions', s', w, k, |s.handlers|);
    MovedTwice(s.inner, w, Asking(k, []), AfterAttempt(k));
    actions', s' := DoNextAttempt(cfg, s0, actions', s', w, k);
  }

  /** A worker whose peer stays silent fails after three attempts. */
  lemma SilentPeer(cfg: Config, s0: System, actions: seq<Action>, s: System, w: nat)
    returns (actions': seq<Action>, s': System)
    requires Valid(cfg) && Executes(cfg, s0, actions, s) && Plain(actions) && Place(cfg, s, w, Attempting(0))
    ensures Executes(cfg, s0, actions', s') && Plain(actions')
    ensures OnlyMoved(s, s', w, DownloadSystem.Failed)
  {
    actions', s' := SilentRound(cfg, s0, actions, s, w, 0);
    MovedTwice(s.inner, w, Attempting(1), Attempting(2));
    actions', s' := SilentRound(cfg, s0, actions', s', w, 1);
    MovedTwice(s.inner, w, Attempting(2), DownloadSystem.Failed);
    actions', s' := SilentRound(cfg, s0, actions', s', w, 2);
  }

  /** One of the deferred calls. */
  lemma DoDeferred(cfg: Config, s0: System, actions: seq<Action>, s: System, w: nat)
    returns (actions': seq<Action>, s': System)
    requires Valid(cfg) && Executes(cfg, s0, actions, s) && Plain(actions)
    requires w < |s.ctl.workers| && (s.ctl.workers[w].phase.Marked? || s.ctl.workers[w].phase.Unlisted?
                                     || s.ctl.workers[w].phase.Released?)
    requires s.ctl.tokens > 0 || s.ctl.workers[w].phase.Released?
    requires s.ctl.pending > 0
    ensures Executes(cfg, s0, actions', s') && Plain(actions')
    ensures s' == s.(ctl := Deferred(s.ctl, w))
  {
    actions', s' := Do(cfg, s0, actions, s, Control(C.WorkerStep(s.ctl, w, true)));
  }

  function Deferred(c: C.Control, w: nat): C.Control
    requires w < |c.workers| && c.pending > 0 && (c.workers[w].phase.Unlisted? ==> c.tokens > 0)
  {
    var x := c.workers[w];
    match x.phase
    case Marked => C.SetPhase(c, w, C.Unlisted).(active := c.active - {x.piece})
    case Unlisted => C.SetPhase(c, w, C.Released).(tokens := c.tokens - 1)
    case Released => C.SetPhase(c, w, C.Gone).(pending := c.pending - 1)
    case _ => c
  }

  /** A worker that has written its piece's status makes its deferred calls. */
  lemma WindDown(cfg: Config, s0: System, actions: seq<Action>, s: System, w: nat)
    returns (actions': seq<Action>, s': System)
    requires Valid(cfg) && Executes(cfg, s0, actions, s) && Plain(actions)
    requires C.InPhase(s.ctl, w, C.Marked) && s.ctl.tokens > 0 && s.ctl.pending > 0
    ensures Executes(cfg, s0, actions', s') && Plain(actions')
    ensures s'.ctl == Departed(s.ctl, w) && s'.inner == s.inner && s'.peers == s.peers
  {
    WoundDown(s.ctl, w);
    actions', s' := DoDeferred(cfg, s0, actions, s, w);
    actions', s' := DoDeferred(cfg, s0, actions', s', w);
    actions', s' := DoDeferred(cfg, s0, actions', s', w);
  }

  /** What the three deferred calls come to. */
  lemma WoundDown(c: C.Control, w: nat)
    requires C.InPhase(c, w, C.Marked) && c.tokens > 0 && c.pending > 0
    ensures var c1 := Deferred(c, w);
            && C.InPhase(c1, w, C.Unlisted) && c1.tokens > 0 && c1.pending > 0
            && var c2 := Deferred(c1, w);
               && C.InPhase(c2, w, C.Released) && c2.pending > 0
               && Deferred(c2, w) == Departed(c, w)
  {
    var x := c.workers[w];
    MovedTwice(c.workers, w, x.(phase := C.Unlisted), x.(phase := C.Released));
    MovedTwice(c.workers, w, x.(phase := C.Released), x.(phase := C.Gone));
  }

  function Departed(c: C.Control, w: nat): C.Control
    requires w < |c.workers| && c.tokens > 0 && c.pending > 0
  {
    c.(workers := c.workers[w := c.workers[w].(phase := C.Gone)], active := c.active - {c.workers[w].piece},
       tokens := c.tokens - 1, pending := c.pending - 1)
  }

  // ---------------------------------------------------------------- one piece after the other

  /** All pieces are in range and have a peer; no worker is on its way. */
  ghost predicate Between(cfg: Config, s: System) {
    && |s.inner| == |s.ctl.workers| && s.ctl.tokens == 0 && s.ctl.pending == 0 && s.peers == {PEER}
    && Fetchable(cfg, s.ctl.table)
  }

  ghost predicate Fetchable(cfg: Config, t: Table) {
    && Peered(t)
    && forall i | i in t :: i < |cfg.src| && HasChunk(cfg.src, cfg.chunkSize, i)
  }

  function Launched(c: C.Control): C.Control
    requires c.pc.Launching? && c.pc.queue != []
  {
    var piece := c.pc.queue[0];
    c.(pc := C.NextInBatch(c.pc.queue[1..]), workers := c.workers + [C.Worker(piece, C.Running)],
       active := c.active + {piece}, tokens := c.tokens + 1, pending := c.pending + 1)
  }

  /** What one launched, successful and departed worker leaves behind. */
  lemma RoundIs(c: C.Control)
    requires c.pc.Launching? && c.pc.queue != [] && c.tokens == 0 == c.pending
    ensures var piece, d := c.pc.queue[0], Departed(Reported(Launched(c), |c.workers|, true), |c.workers|);
            && d.pc == C.NextInBatch(c.pc.queue[1..]) && d.tokens == 0 == d.pending
            && |d.workers| == |c.workers| + 1 && d.table == Mark(c.table, piece, Verified)
            && d.outcomes == c.outcomes + [C.Outcome(piece, true)]
  {
    var w := |c.workers|;
    var c1 := Launched(c);
    assert |c1.workers| == w + 1 && c1.workers[w] == C.Worker(c.pc.queue[0], C.Running);
    var c2 := Reported(c1, w, true);
    assert |c2.workers| == w + 1 && c2.workers[w].piece == c.pc.queue[0];
  }

  /** The main goroutine launches a worker for the next piece of the batch. */
  lemma LaunchNext(cfg: Config, s0: System, actions: seq<Action>, s: System)
    returns (actions': seq<Action>, s': System)
    requires Valid(cfg) && Executes(cfg, s0, actions, s) && Plain(actions)
    requires s.ctl.pc.Launching? && s.ctl.pc.queue != [] && s.ctl.tokens < C.MAX_CONCURRENT
    ensures Executes(cfg, s0, actions', s') && Plain(actions')
    ensures s'.ctl == Launched(s.ctl) && s'.inner == s.inner + [Attempting(0)] && s'.peers == s.peers
  {
    actions', s' := Do(cfg, s0, actions, s, Control(C.Launch));
  }

  /** Worker w has written its piece's status. */
  function Reported(c: C.Control, w: nat, ok: bool): C.Control
    requires w < |c.workers|
  {
    var piece := c.workers[w].piece;
    c.(workers := c.workers[w := C.Worker(piece, C.Marked)],
       table := Mark(c.table, piece, if ok then Verified else Missing),
       outcomes := c.outcomes + [C.Outcome(piece, ok)])
  }

  lemma Report(cfg: Config, s0: System, actions: seq<Action>, s: System, w: nat, ok: bool)
    returns (actions': seq<Action>, s': System)
    requires Valid(cfg) && Executes(cfg, s0, actions, s) && Plain(actions) && HasReturned(s, w, ok)
    ensures Executes(cfg, s0, actions', s') && Plain(actions')
    ensures s'.ctl == Reported(s.ctl, w, ok) && s'.inner == s.inner && s'.peers == s.peers
  {
    actions', s' := Do(cfg, s0, actions, s, Control(C.Finish(w, ok)));
  }

  /** The next piece of the batch is launched, downloaded and verified before anything else happens. */
  lemma OnePiece(cfg: Config, s0: System, actions: seq<Action>, s: System)
    returns (actions': seq<Action>, s': System)
    requires Valid(cfg) && Executes(cfg, s0, actions, s) && Plain(actions) && Between(cfg, s)
    requires s.ctl.pc.Launching? && s.ctl.pc.queue != [] && s.ctl.pc.queue[0] in s.ctl.table
    ensures Executes(cfg, s0, actions', s') && Plain(actions')
    ensures Between(cfg, s') && s'.ctl.pc == C.NextInBatch(s.ctl.pc.queue[1..])
    ensures s'.ctl.table == Mark(s.ctl.table, s.ctl.pc.queue[0], Verified)
    ensures C.Failures(s'.ctl) == C.Failures(s.ctl)
  {
    var w := |s.inner|;
    RoundIs(s.ctl);
    actions', s' := LaunchNext(cfg, s0, actions, s);
    assert Place(cfg, s', w, Attempting(0));
    actions', s' := FetchPiece(cfg, s0, actions', s', w);
    actions', s' := ReportAndDepart(cfg, s0, actions', s', w);
    SuccessAdds(s.ctl, s'.ctl, s.ctl.pc.queue[0]);
  }

  /** The only worker on its way reports success and departs. */
  lemma ReportAndDepart(cfg: Config, s0: System, actions: seq<Action>, s: System, w: nat)
    returns (actions': seq<Action>, s': System)
    requires Valid(cfg) && Executes(cfg, s0, actions, s) && Plain(actions) && Place(cfg, s, w, Succeeded)
    requires s.ctl.tokens == 1 == s.ctl.pending
    ensures Executes(cfg, s0, actions', s') && Plain(actions')
    ensures s'.ctl == Departed(Reported(s.ctl, w, true), w) && s'.inner == s.inner && s'.peers == s.peers
  {
    actions', s' := Report(cfg, s0, actions, s, w, true);
    assert C.InPhase(s'.ctl, w, C.Marked);
    actions', s' := WindDown(cfg, s0, actions', s', w);
  }

  lemma SuccessAdds(c: C.Control, c': C.Control, piece: nat)
    requires c'.outcomes == c.outcomes + [C.Outcome(piece, true)]
    ensures C.Failures(c') == C.Failures(c)
  {
    TallyAppend(c.outcomes, C.Outcome(piece, true), C.Failed);
  }

  /** Everything in the batch but its last piece. */
  lemma {:induction false} AllButLast(cfg: Config, s0: System, actions: seq<Action>, s: System)
    returns (actions': seq<Action>, s': System)
    requires Valid(cfg) && Executes(cfg, s0, actions, s) && Plain(actions) && Between(cfg, s)
    requires s.ctl.pc.Launching? && s.ctl.pc.queue != [] && Elements(s.ctl.pc.queue) <= s.ctl.table.Keys
    ensures Executes(cfg, s0, actions', s') && Plain(actions') && Between(cfg, s')
    ensures var queue := s.ctl.pc.queue;
            && s'.ctl.pc == C.Launching([queue[|queue| - 1]])
            && s'.ctl.table == MarkAll(s.ctl.table, Elements(queue[..|queue| - 1]), Verified)
    ensures C.Failures(s'.ctl) == C.Failures(s.ctl)
    decreases |s.ctl.pc.queue|
  {
    var queue := s.ctl.pc.queue;
    if |queue| == 1 {
      actions', s' := actions, s;
      assert queue == [queue[0]] && Elements(queue[..0]) == {};
      assert MarkAll(s.ctl.table, {}, Verified) == s.ctl.table;
    } else {
      assert queue[0] in Elements(queue);
      actions', s' := OnePiece(cfg, s0, actions, s);
      ElementsTail(queue);
      MarkedInTurn(s.ctl.table, queue);
      actions', s' := AllButLast(cfg, s0, actions', s');
    }
  }

  lemma ElementsTail<T>(s: seq<T>)
    requires s != []
    ensures Elements(s[1..]) <= Elements(s)
  {
  }

  /** Marking the first piece and then the others is marking them all. */
  lemma MarkedInTurn(t: Table, queue: seq<nat>)
    requires |queue| > 1 && queue[0] in t
    ensures var rest := queue[1..];
            MarkAll(Mark(t, queue[0], Verified), Elements(rest[..|rest| - 1]), Verified)
            == MarkAll(t, Elements(queue[..|queue| - 1]), Verified)
  {
    var rest := queue[1..];
    var a, b := rest[..|rest| - 1], queue[..|queue| - 1];
    assert b == [queue[0]] + a;
    assert Elements(b) == Elements(a) + {queue[0]};
  }

  /** Piece p has been handed out and is the only one not verified yet. */
  ghost predicate OnlyOpen(t: Table, p: nat) {
    && p in t && t[p].status == Requested
    && forall i | i in t && i != p :: t[i].status == Verified
  }

  /** The main goroutine takes the next batch. */
  lemma TakeNext(cfg: Config, s0: System, actions: seq<Action>, s: System, batch: seq<nat>)
    returns (actions': seq<Action>, s': System)
    requires Valid(cfg) && Executes(cfg, s0, actions, s) && Plain(actions)
    requires s.ctl.pc.LoopTop? && s.peers == {PEER} && !AllVerified(s.ctl.table)
    requires IsBatch(s.ctl.table, 20, batch) && batch != []
    ensures Executes(cfg, s0, actions', s') && Plain(actions')
    ensures s'.ctl == s.ctl.(pc := C.Launching(batch), table := MarkAll(s.ctl.table, Elements(batch), Requested))
    ensures s'.inner == s.inner && s'.peers == s.peers && s'.handlers == s.handlers && s'.net == s.net
  {
    actions', s' := Do(cfg, s0, actions, s, Control(C.CheckComplete));
    assert s'.ctl == s.ctl.(pc := C.CountPeers);
    actions', s' := Do(cfg, s0, actions', s', Control(C.ReadPeers(1, false)));
    assert s'.ctl == s.ctl.(pc := C.TakeBatch(20));
    actions', s' := Do(cfg, s0, actions', s', Control(C.GetBatch(batch)));
  }

  /** Nothing is requested or received: what is not verified is missing. */
  ghost predicate Fresh(t: Table) {
    forall i | i in t :: t[i].status == Missing || t[i].status == Verified
  }

  lemma FreshPool(t: Table)
    requires Peered(t) && Fresh(t)
    ensures Pool(t) == C.Unverified(t)
  {
    assert Candidates(t, Missing) == C.Unverified(t);
    assert Candidates(t, Requested) == {};
  }

  /** The table when a batch has been handed out and all of it but the last piece downloaded. */
  function AlmostDone(t: Table, batch: seq<nat>): Table
    requires batch != []
  {
    MarkAll(MarkAll(t, Elements(batch), Requested), Elements(batch[..|batch| - 1]), Verified)
  }

  lemma BatchAlmostDone(t: Table, batch: seq<nat>)
    requires Peered(t) && Fresh(t) && Distinct(batch) && batch != [] && Elements(batch) <= C.Unverified(t)
    ensures var last := batch[|batch| - 1];
            var t' := AlmostDone(t, batch);
            && t'.Keys == t.Keys && Peered(t') && last in t' && t'[last].status == Requested
            && Fresh(Mark(t', last, Verified))
            && C.Unverified(Mark(t', last, Verified)) == C.Unverified(t) - Elements(batch)
            && (Elements(batch) == C.Unverified(t) ==> OnlyOpen(t', last))
  {
    var before, last := batch[..|batch| - 1], batch[|batch| - 1];
    assert batch == before + [last];
    ElementsMore(before, last);
    DistinctMore(before, last);
    assert last in Elements(batch);
  }

  /** A batch is handed out and all of it but its last piece downloaded. */
  lemma BatchButLast(cfg: Config, s0: System, actions: seq<Action>, s: System, batch: seq<nat>)
    returns (actions': seq<Action>, s': System)
    requires Valid(cfg) && Executes(cfg, s0, actions, s) && Plain(actions) && Between(cfg, s)
    requires s.ctl.pc.LoopTop? && Fresh(s.ctl.table) && !AllVerified(s.ctl.table)
    requires IsBatch(s.ctl.table, 20, batch) && batch != []
    ensures Executes(cfg, s0, actions', s') && Plain(actions') && Between(cfg, s')
    ensures var t, last := s.ctl.table, batch[|batch| - 1];
            && s'.ctl.pc == C.Launching([last]) && last in t
            && s'.ctl.table == AlmostDone(t, batch)
    ensures C.Failures(s'.ctl) == C.Failures(s.ctl)
  {
    assert batch[|batch| - 1] in Elements(batch);
    actions', s' := TakeNext(cfg, s0, actions, s, batch);
    assert s'.ctl.table.Keys == s.ctl.table.Keys;
    actions', s' := AllButLast(cfg, s0, actions', s');
  }

  /** Everything is downloaded but the very last piece, which has just been handed out. */
  lemma {:induction false} UntilLast(cfg: Config, s0: System, actions: seq<Action>, s: System)
    returns (actions': seq<Action>, s': System, p: nat)
    requires Valid(cfg) && Executes(cfg, s0, actions, s) && Plain(actions) && Between(cfg, s)
    requires s.ctl.pc.LoopTop? && Fresh(s.ctl.table) && !AllVerified(s.ctl.table)
    ensures Executes(cfg, s0, actions', s') && Plain(actions') && Between(cfg, s')
    ensures s'.ctl.pc == C.Launching([p]) && OnlyOpen(s'.ctl.table, p) && s'.ctl.table.Keys == s.ctl.table.Keys
    ensures C.Failures(s'.ctl) == C.Failures(s.ctl)
    decreases |C.Unverified(s.ctl.table)|
  {
    var t := s.ctl.table;
    FreshPool(t);
    C.UnverifiedEmpty(t);
    var batch := BatchExists(t, 20);
    DistinctCount(batch);
    if Elements(batch) == C.Unverified(t) {
      p := batch[|batch| - 1];
      BatchAlmostDone(t, batch);
      actions', s' := BatchButLast(cfg, s0, actions, s, batch);
    } else {
      FewerLeft(C.Unverified(t), Elements(batch));
      actions', s' := WholeBatch(cfg, s0, actions, s, batch);
      C.UnverifiedEmpty(s'.ctl.table);
      actions', s', p := UntilLast(cfg, s0, actions', s');
    }
  }

  /** A batch is handed out and all of it downloaded. */
  lemma WholeBatch(cfg: Config, s0: System, actions: seq<Action>, s: System, batch: seq<nat>)
    returns (actions': seq<Action>, s': System)
    requires Valid(cfg) && Executes(cfg, s0, actions, s) && Plain(actions) && Between(cfg, s)
    requires s.ctl.pc.LoopTop? && Fresh(s.ctl.table) && !AllVerified(s.ctl.table)
    requires IsBatch(s.ctl.table, 20, batch) && batch != []
    ensures Executes(cfg, s0, actions', s') && Plain(actions') && Between(cfg, s')
    ensures s'.ctl.pc.LoopTop? && Fresh(s'.ctl.table) && s'.ctl.table.Keys == s.ctl.table.Keys
    ensures C.Unverified(s'.ctl.table) == C.Unverified(s.ctl.table) - Elements(batch)
    ensures C.Failures(s'.ctl) == C.Failures(s.ctl)
  {
    FreshPool(s.ctl.table);
    BatchAlmostDone(s.ctl.table, batch);
    actions', s' := BatchButLast(cfg, s0, actions, s, batch);
    actions', s' := OnePiece(cfg, s0, actions', s');
  }

  lemma FewerLeft<T>(all: set<T>, some: set<T>)
    requires some <= all && some != {} && some != all
    ensures all - some != {} && |all - some| < |all|
  {
    assert all == (all - some) + some;
    if all - some == {} {
      NothingRemains(all, some);
      assert false;
    }
  }

  lemma NothingRemains<T>(all: set<T>, some: set<T>)
    requires some <= all && all - some == {}
    ensures all == some
  {
    assert all == (all - some) + some;
  }

  /** DownloadFile's state on entering its loop, with one peer. */
  lemma FirstState(cfg: Config) returns (s0: System)
    requires Valid(cfg) && cfg.src != []
    ensures Initial(cfg, s0) && Between(cfg, s0) && s0.ctl.pc.LoopTop? && C.Failures(s0.ctl) == 0
    ensures Fresh(s0.ctl.table) && !AllVerified(s0.ctl.table)
    ensures s0.inner == [] && s0.handlers == []
  {
    var hashes := seq(Total(cfg), _ => "");
    s0 := Start(cfg, hashes, [PEER]);
    StartIsInitial(cfg, hashes, [PEER]);
    StartTableIs(Total(cfg), hashes, [PEER]);
    assert Elements([PEER]) == {PEER};
    AcceptedIffCounted(cfg.src, cfg.chunkSize, 0);
    assert 0 in s0.ctl.table && s0.ctl.table[0].status == Missing;
    forall i | i in s0.ctl.table ensures i < |cfg.src| && HasChunk(cfg.src, cfg.chunkSize, i) {
      AcceptedIffCounted(cfg.src, cfg.chunkSize, i);
      AtLeastIndex(i, cfg.chunkSize);
    }
  }

  lemma AtLeastIndex(i: nat, chunkSize: nat)
    requires chunkSize > 0
    ensures i <= i * chunkSize
  {
  }

  /** The main goroutine finds everything verified and leaves its loop. */
  lemma DoComplete(cfg: Config, s0: System, actions: seq<Action>, s: System)
    returns (actions': seq<Action>, s': System)
    requires Valid(cfg) && Executes(cfg, s0, actions, s) && Plain(actions)
    requires s.ctl.pc.LoopTop? && AllVerified(s.ctl.table)
    ensures Executes(cfg, s0, actions', s') && Plain(actions')
    ensures s' == s.(ctl := s.ctl.(pc := C.Waiting))
  {
    actions', s' := Do(cfg, s0, actions, s, Control(C.CheckComplete));
  }

  /** A download in which every answer arrives. */
  lemma WholeDownload(cfg: Config) returns (s0: System, actions: seq<Action>, s: System)
    requires Valid(cfg) && cfg.src != []
    ensures Initial(cfg, s0) && Peered(s0.ctl.table) && Executes(cfg, s0, actions, s) && Plain(actions)
    ensures actions != [] && actions[|actions| - 1] == Control(C.Return)
    ensures s.ctl.pc == C.Finished(true) && C.Failures(s.ctl) == 0
    ensures s0.peers == {PEER} == s.peers
  {
    var p;
    s0 := FirstState(cfg);
    actions, s, p := UntilLast(cfg, s0, [], s0);
    actions, s := OnePiece(cfg, s0, actions, s);
    assert AllVerified(s.ctl.table);
    actions, s := DoComplete(cfg, s0, actions, s);
    actions, s := Do(cfg, s0, actions, s, Control(C.Return));
  }

  /** For every non-empty file there is a fair run that meets every assumption with no failure at all. */
  lemma LivenessApplies(cfg: Config) returns (run: nat -> System, acts: nat -> Action)
    requires Valid(cfg) && cfg.src != []
    ensures IsRun(cfg, run, acts) && Fair(cfg, run, acts) && Tame(run, acts, 0, 1)
    ensures exists n: nat :: run(n).ctl.pc == C.Finished(true) && Content(run(n).out) == cfg.src
  {
    var s0, actions, s := WholeDownload(cfg);
    run, acts := RunOf(cfg, s0, actions, s, PEER);
    forall k: nat ensures !IsPoll(acts(k)) && C.Failures(run(k).ctl) <= 0 && |run(k).peers| <= 1 {
      if k <= |actions| {
        AfterFailures(cfg, s0, actions, s, k);
        AfterPeers(cfg, s0, actions, s, k);
        Smaller(run(k).peers, {PEER});
      }
      if k < |actions| {
        assert Ordinary(actions[k]);
      }
    }
    assert NoPollsFrom(acts, 0);
    assert Reachable(cfg, s);
    NilMeansRightFile(cfg, s);
    assert run(|actions|) == s;
  }

  // ---------------------------------------------------------------- a late duplicate

  /** The only piece not verified is still requested, so it is what is handed out next. */
  lemma HandedOutAgain(t: Table, p: nat)
    requires Peered(t) && OnlyOpen(t, p)
    ensures !AllVerified(t) && IsBatch(t, 20, [p]) && MarkAll(t, Elements([p]), Requested) == t
  {
    assert Candidates(t, Missing) == {};
    assert Candidates(t, Requested) == {p};
    assert Elements([p]) == {p};
  }

  /** Two workers are on the last piece; the first has written it but not yet reported. */
  lemma Duplicate(cfg: Config) returns (s0: System, actions: seq<Action>, s: System, w: nat, p: nat)
    requires Valid(cfg) && cfg.src != []
    ensures Initial(cfg, s0) && Peered(s0.ctl.table) && Executes(cfg, s0, actions, s) && Plain(actions)
    ensures Place(cfg, s, w, Succeeded) && Place(cfg, s, w + 1, Attempting(0))
    ensures s.ctl.workers[w].piece == p == s.ctl.workers[w + 1].piece && OnlyOpen(s.ctl.table, p)
    ensures s.ctl.pc == C.LoopTop && s.ctl.tokens == 2 == s.ctl.pending && C.Failures(s.ctl) == 0
  {
    s0 := FirstState(cfg);
    actions, s, p := UntilLast(cfg, s0, [], s0);
    w := |s.inner|;
    actions, s := LaunchNext(cfg, s0, actions, s);
    assert Place(cfg, s, w, Attempting(0));
    actions, s := FetchPiece(cfg, s0, actions, s, w);
    actions, s := LaunchAgain(cfg, s0, actions, s, w, p);
  }

  lemma LaunchAgain(cfg: Config, s0: System, actions: seq<Action>, s: System, w: nat, p: nat)
    returns (actions': seq<Action>, s': System)
    requires Valid(cfg) && Executes(cfg, s0, actions, s) && Plain(actions)
    requires Place(cfg, s, w, Succeeded) && w + 1 == |s.inner| && s.ctl.workers[w].piece == p
    requires s.ctl.pc == C.LoopTop && s.ctl.tokens == 1 == s.ctl.pending
    requires Peered(s.ctl.table) && OnlyOpen(s.ctl.table, p)
    ensures Executes(cfg, s0, actions', s') && Plain(actions')
    ensures Place(cfg, s', w, Succeeded) && Place(cfg, s', w + 1, Attempting(0))
    ensures s'.ctl.workers[w].piece == p == s'.ctl.workers[w + 1].piece && s'.ctl.table == s.ctl.table
    ensures s'.ctl.pc == C.LoopTop && s'.ctl.tokens == 2 == s'.ctl.pending && s'.ctl.outcomes == s.ctl.outcomes
  {
    HandedOutAgain(s.ctl.table, p);
    actions', s' := TakeNext(cfg, s0, actions, s, [p]);
    actions', s' := LaunchNext(cfg, s0, actions', s');
  }

  lemma LastVerified(t: Table, p: nat)
    requires OnlyOpen(t, p)
    ensures AllVerified(Mark(t, p, Verified)) && Mark(t, p, Verified).Keys == t.Keys
  {
  }

  /** The first worker reports and the loop ends. */
  lemma FirstSucceeds(cfg: Config, s0: System, actions: seq<Action>, s: System, w: nat, p: nat)
    returns (actions': seq<Action>, s': System)
    requires Valid(cfg) && Executes(cfg, s0, actions, s) && Plain(actions)
    requires Place(cfg, s, w, Succeeded) && Place(cfg, s, w + 1, Attempting(0))
    requires s.ctl.workers[w].piece == p == s.ctl.workers[w + 1].piece && OnlyOpen(s.ctl.table, p)
    requires s.ctl.pc == C.LoopTop && s.ctl.tokens == 2 == s.ctl.pending
    ensures Executes(cfg, s0, actions', s') && Plain(actions')
    ensures C.InPhase(s'.ctl, w, C.Marked) && Place(cfg, s', w + 1, Attempting(0))
    ensures s'.ctl.workers[w + 1].piece == p && s'.ctl.table == Mark(s.ctl.table, p, Verified)
    ensures s'.ctl.pc == C.Waiting && s'.ctl.tokens == 2 == s'.ctl.pending
    ensures s'.ctl.outcomes == s.ctl.outcomes + [C.Outcome(p, true)]
  {
    LastVerified(s.ctl.table, p);
    actions', s' := Report(cfg, s0, actions, s, w, true);
    actions', s' := DoComplete(cfg, s0, actions', s');
  }

  /** The first worker succeeds and the loop ends; then the second worker's peer stays silent. */
  lemma SecondFails(cfg: Config, s0: System, actions: seq<Action>, s: System, w: nat, p: nat)
    returns (actions': seq<Action>, s': System)
    requires Valid(cfg) && Executes(cfg, s0, actions, s) && Plain(actions)
    requires Place(cfg, s, w, Succeeded) && Place(cfg, s, w + 1, Attempting(0))
    requires s.ctl.workers[w].piece == p == s.ctl.workers[w + 1].piece && OnlyOpen(s.ctl.table, p)
    requires s.ctl.pc == C.LoopTop && s.ctl.tokens == 2 == s.ctl.pending && C.Failures(s.ctl) == 0
    ensures Executes(cfg, s0, actions', s') && Plain(actions')
    ensures C.InPhase(s'.ctl, w, C.Marked) && Place(cfg, s', w + 1, DownloadSystem.Failed)
    ensures s'.ctl.workers[w + 1].piece == p && AllVerified(s'.ctl.table) && s'.ctl.table.Keys == s.ctl.table.Keys
    ensures s'.ctl.pc == C.Waiting && s'.ctl.tokens == 2 == s'.ctl.pending
    ensures s'.ctl.outcomes == s.ctl.outcomes + [C.Outcome(p, true)]
  {
    LastVerified(s.ctl.table, p);
    actions', s' := FirstSucceeds(cfg, s0, actions, s, w, p);
    actions', s' := SilentPeer(cfg, s0, actions', s', w + 1);
  }

  /** The failure is recorded, both workers depart, and the final check finds the piece missing. */
  lemma GiveUp(cfg: Config, s0: System, actions: seq<Action>, s: System, w: nat, p: nat)
    returns (actions': seq<Action>, s': System)
    requires Valid(cfg) && Executes(cfg, s0, actions, s) && Plain(actions)
    requires C.InPhase(s.ctl, w, C.Marked) && Place(cfg, s, w + 1, DownloadSystem.Failed)
    requires s.ctl.workers[w + 1].piece == p && p in s.ctl.table
    requires s.ctl.pc == C.Waiting && s.ctl.tokens == 2 == s.ctl.pending
    ensures Executes(cfg, s0, actions', s') && Plain(actions')
    ensures s'.ctl.pc == C.Finished(false) && s'.ctl.table == Mark(s.ctl.table, p, Missing)
    ensures s'.ctl.outcomes == s.ctl.outcomes + [C.Outcome(p, false)]
  {
    actions', s' := Report(cfg, s0, actions, s, w + 1, false);
    var t := s'.ctl.table;
    assert p in t && t[p].status == Missing && !AllVerified(t);
    actions', s' := WindDown(cfg, s0, actions', s', w);
    actions', s' := WindDown(cfg, s0, actions', s', w + 1);
    actions', s' := Do(cfg, s0, actions', s', Control(C.Return));
  }

  /**
   Verified is not stable, and it matters: a duplicate worker handed out by the end-game rule can
   fail after the first one succeeded and after the loop has ended. Then DownloadFile returns an
   error although the output file is the source byte for byte. The peer merely stays silent.
   */
  lemma LateDuplicateSpoilsResult(cfg: Config) returns (s0: System, actions: seq<Action>, s: System)
    requires Valid(cfg) && cfg.src != []
    ensures Initial(cfg, s0) && Peered(s0.ctl.table) && Executes(cfg, s0, actions, s) && Plain(actions)
    ensures s.ctl.pc == C.Finished(false) && C.Failures(s.ctl) == 1
    ensures Content(s.out) == cfg.src
  {
    var w, p;
    s0, actions, s, w, p := Duplicate(cfg);
    var outcomes := s.ctl.outcomes;
    actions, s := SecondFails(cfg, s0, actions, s, w, p);
    actions, s := GiveUp(cfg, s0, actions, s, w, p);
    OneFailure(outcomes, p);
    assert Reachable(cfg, s);
    AllOnceVerified(cfg, s, p);
  }

  lemma OneFailure(outcomes: seq<C.Outcome>, p: nat)
    ensures var all := outcomes + [C.Outcome(p, true)] + [C.Outcome(p, false)];
            Tally(all, C.Failed) == Tally(outcomes, C.Failed) + 1 && C.Outcome(p, true) in all
  {
    TallyAppend(outcomes, C.Outcome(p, true), C.Failed);
    TallyAppend(outcomes + [C.Outcome(p, true)], C.Outcome(p, false), C.Failed);
    assert (outcomes + [C.Outcome(p, true)] + [C.Outcome(p, false)])[|outcomes|] == C.Outcome(p, true);
  }

  lemma AllOnceVerified(cfg: Config, s: System, p: nat)
    requires Valid(cfg) && Reachable(cfg, s) && C.Outcome(p, true) in s.ctl.outcomes
    requires forall i | i in s.ctl.table && i != p :: s.ctl.table[i].status == Verified
    ensures Content(s.out) == cfg.src
  {
    ReachableInv(cfg, s);
    forall i: nat | i < Total(cfg) ensures C.Outcome(i, true) in s.ctl.outcomes {
      assert i in s.ctl.table;
      if i != p {
        assert C.PieceOk(s.ctl, i);
        var k := LastOutcomeOccurs(s.ctl.outcomes, i);
      }
    }
    EveryPieceOnceIsEnough(cfg, s);
  }

  // ---------------------------------------------------------------- a second response

  /** The first worker of a download is about to ask its peer. */
  lemma FirstWorker(cfg: Config) returns (s0: System, actions: seq<Action>, s: System)
    requires Valid(cfg) && cfg.src != []
    ensures Initial(cfg, s0) && Executes(cfg, s0, actions, s) && Plain(actions)
    ensures Place(cfg, s, 0, Attempting(0)) && s.handlers == []
  {
    s0 := FirstState(cfg);
    var t := s0.ctl.table;
    FreshPool(t);
    C.UnverifiedEmpty(t);
    var batch := BatchExists(t, 20);
    assert batch[0] in Elements(batch);
    actions, s := TakeNext(cfg, s0, [], s0, batch);
    actions, s := Do(cfg, s0, actions, s, Control(C.Launch));
  }

  /**
   The worker asks, times out and asks again, and both answers arrive in its second handler: the
   first is taken and being written, and a call with the second has passed the test of `done`.
   */
  lemma TwoAnswers(cfg: Config)
    returns (s0: System, actions: seq<Action>, s: System, reply: Message)
    requires Valid(cfg) && cfg.src != []
    ensures Initial(cfg, s0) && Executes(cfg, s0, actions, s) && Plain(actions)
    ensures reply.Response? && Place(cfg, s, 0, Writing(1, [], 1, reply.data, 0)) && |s.handlers| == 2
    ensures s.handlers[1] == Handler(cfg.file, s.ctl.workers[0].piece, true, None, false, 0, 1, 1)
    ensures (reply, 1) in s.calls && |reply.data| <= cfg.chunkSize
    ensures reply.file == cfg.file && reply.chunk == s.ctl.workers[0].piece
  {
    s0, actions, s := FirstWorker(cfg);
    NowBalanced(actions);
    reply := ReplyIs(cfg, s.ctl.workers[0].piece);
    actions, s := SilentRound(cfg, s0, actions, s, 0, 0);
    actions, s := AskPeerOnce(cfg, s0, actions, s, 0, 1);
    actions, s := AnswerOnce(cfg, s0, actions, s, 0, 1, 1, reply);
    actions, s := AnswerOnce(cfg, s0, actions, s, 0, 1, 1, reply);
    actions, s := CallOnce(cfg, s0, actions, s, 1, reply);
    actions, s := TakeThenEnter(cfg, s0, actions, s, reply);
  }

  lemma TakeThenEnter(cfg: Config, s0: System, actions: seq<Action>, s: System, reply: Message)
    returns (actions': seq<Action>, s': System)
    requires Valid(cfg) && Executes(cfg, s0, actions, s) && Plain(actions)
    requires Place(cfg, s, 0, Awaiting(1, [], PEER, 1)) && |s.handlers| == 2 && reply in s.net && reply.Response?
    requires s.handlers[1] == Handler(cfg.file, s.ctl.workers[0].piece, true, Some(reply), false, 0, 1, 0)
    requires Tally(actions, IsEntry) < Tally(actions, IsAnswer)
    ensures Executes(cfg, s0, actions', s') && Plain(actions')
    ensures OnlyMoved(s, s', 0, Writing(1, [], 1, reply.data, 0)) && |s'.handlers| == 2
    ensures s'.handlers[1] == Handler(cfg.file, s.ctl.workers[0].piece, true, None, false, 0, 1, 1)
    ensures (reply, 1) in s'.calls
  {
    actions', s' := DoTake(cfg, s0, actions, s, 0, 1, 1, reply);
    actions', s' := Do(cfg, s0, actions', s', Enter(reply, 1));
  }

  /** A handler does come to accept a second response while its worker writes the first one. */
  lemma SecondResponseAccepted(cfg: Config) returns (s0: System, actions: seq<Action>, s: System, h: nat)
    requires Valid(cfg) && cfg.src != []
    ensures Initial(cfg, s0) && Executes(cfg, s0, actions, s) && Plain(actions)
    ensures h < |s.handlers| && s.handlers[h].accepted == 2 && s.handlers[h].open && Writes(s, s.handlers[h].owner)
  {
    var reply;
    s0, actions, s, reply := TwoAnswers(cfg);
    h := 1;
    actions, s := Do(cfg, s0, actions, s, Deliver(reply, 1));
  }

  /** And another does so after its worker has finished and closed it. */
  lemma SecondResponseAfterClose(cfg: Config) returns (s0: System, actions: seq<Action>, s: System, h: nat)
    requires Valid(cfg) && cfg.src != []
    ensures Initial(cfg, s0) && Executes(cfg, s0, actions, s) && Plain(actions)
    ensures h < |s.handlers| && s.handlers[h].accepted == 2 && !s.handlers[h].open
    ensures s.handlers[h].owner < |s.inner| && s.inner[s.handlers[h].owner].Succeeded?
  {
    var reply;
    s0, actions, s, reply := TwoAnswers(cfg);
    h := 1;
    actions, s := DoWrite(cfg, s0, actions, s, 0, 1, 1, reply.data);
    assert s.handlers[1] == Handler(cfg.file, reply.chunk, false, None, false, 0, 1, 1);
    actions, s := Do(cfg, s0, actions, s, Deliver(reply, 1));
  }
}
