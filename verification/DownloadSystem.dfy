/**
 The whole download as a step system: DownloadControl's goroutines, what each worker does inside
 downloadChunk, the shared list of response handlers, the network, the seeder and the output file.
 The network may delay, drop, duplicate and reorder: a message once sent may be handed to any
 handler at any later time, any number of times, or never. A handler is called in two steps, its test
 of `done` and what it then puts into a channel, and anything may happen in between.
 */
module DownloadSystem {
  import opened Common
  import opened PieceTable
  import opened Chunking
  import opened Assembly
  import C = DownloadControl

  type FileId = string

  /** What is being downloaded: the file's ID, its true bytes and the announced chunk size. */
  datatype Config = Config(file: FileId, src: seq<byte>, chunkSize: nat)

  function Total(cfg: Config): nat
    requires cfg.chunkSize > 0
  {
    NumChunks(|cfg.src|, cfg.chunkSize)
  }

  datatype Message =
    | Response(file: FileId, chunk: nat, data: seq<byte>)
    | BadPayload   // a chunk response whose payload has the wrong type

  /**
   A response handler: the closure's file and chunk, whether `done` is still open, and the two
   one-slot channels. The registering worker and the two counters are kept for the proofs.
   */
  datatype Handler = Handler(
    file: FileId,
    chunk: nat,
    open: bool,
    response: Option<Message>,
    error: bool,
    owner: nat,
    accepted: nat,
    taken: nat)

  const MAX_ATTEMPTS: nat := 3
  const MAX_WRITES: nat := 3

  /** Where a worker is inside downloadChunk. */
  datatype Inner =
    | Attempting(attempt: nat)
    | Asking(attempt: nat, left: seq<Peer>)
    | Awaiting(attempt: nat, left: seq<Peer>, peer: Peer, h: nat)
    | Writing(attempt: nat, left: seq<Peer>, h: nat, data: seq<byte>, tries: nat)
    | Succeeded
    | Failed

  datatype System = System(
    ctl: C.Control,
    inner: seq<Inner>,
    handlers: seq<Handler>,
    requests: set<nat>,
    net: set<Message>,
    calls: multiset<(Message, nat)>,   // handler calls that have passed the test of `done`
    peers: set<Peer>,
    out: OutFile)

  datatype Action =
    // the main goroutine and the deferred calls of workers
    | Control(step: C.Step)
    // a worker inside downloadChunk
    | Snapshot(w: nat, order: seq<Peer>)
    | NoPeers(w: nat)
    | Ask(w: nat, sent: bool)
    | NextAttempt(w: nat)
    | Timeout(w: nat)
    | TakeResponse(w: nat)
    | TakeError(w: nat, removed: bool)
    | WriteOnce(w: nat, attempt: Attempt)
    // everybody else
    | Join(peer: Peer)
    | Leave(peer: Peer)
    | Answer(chunk: nat)
    | Noise(msg: Message)
    | Enter(msg: Message, h: nat)
    | Deliver(msg: Message, h: nat)

  predicate IsEnvironment(a: Action) {
    a.Join? || a.Leave? || a.Answer? || a.Noise? || a.Enter? || a.Deliver?
  }

  // ---------------------------------------------------------------- handlers

  /** Whether the closure, once past its test of `done`, puts the message into its response channel. */
  predicate Accepts(h: Handler, msg: Message) {
    msg.Response? && msg.file == h.file && msg.chunk == h.chunk && h.response.None?
  }

  /** The rest of a call that has passed the test, even if the handler has been closed since. */
  function Handle(h: Handler, msg: Message): Handler {
    if msg.BadPayload? then h.(error := true)
    else if Accepts(h, msg) then h.(response := Some(msg), accepted := h.accepted + 1)
    else h
  }

  /** The seeder's reply: the chunk that ReadChunk returns, or none for an index it rejects. */
  function SeederReply(cfg: Config, chunk: nat): Option<Message>
    requires cfg.chunkSize > 0
  {
    if chunk >= Total(cfg) then None
    else
      AcceptedIffCounted(cfg.src, cfg.chunkSize, chunk);
      Some(Response(cfg.file, chunk, ChunkAt(cfg.src, cfg.chunkSize, chunk)))
  }

  // ---------------------------------------------------------------- steps

  predicate At(s: System, w: nat) {
    w < |s.inner| && w < |s.ctl.workers| && s.ctl.workers[w].phase.Running?
  }

  predicate Waits(s: System, w: nat) {
    At(s, w) && s.inner[w].Awaiting? && s.inner[w].h < |s.handlers|
  }

  predicate Writes(s: System, w: nat) {
    At(s, w) && s.inner[w].Writing? && s.inner[w].h < |s.handlers|
  }

  /** A result exists: downloadChunk has returned with this outcome. */
  predicate HasReturned(s: System, w: nat, ok: bool) {
    At(s, w) && s.inner[w] == (if ok then Succeeded else Failed)
  }

  ghost predicate Enabled(cfg: Config, s: System, a: Action)
    requires cfg.chunkSize > 0
  {
    match a
    case Control(step) =>
      && C.Enabled(s.ctl, step)
      && (step.ReadPeers? ==> step.count == |s.peers|)
      && (step.Finish? ==> HasReturned(s, step.w, step.ok))
    case Snapshot(w, order) =>
      At(s, w) && s.inner[w].Attempting? && s.peers != {} && multiset(order) == multiset(s.peers)
    case NoPeers(w) => At(s, w) && s.inner[w].Attempting? && s.peers == {}
    case Ask(w, _) => At(s, w) && s.inner[w].Asking? && s.inner[w].left != []
    case NextAttempt(w) => At(s, w) && s.inner[w].Asking? && s.inner[w].left == []
    case Timeout(w) => Waits(s, w)
    case TakeResponse(w) =>
      Waits(s, w) && s.handlers[s.inner[w].h].response.Some? && s.handlers[s.inner[w].h].response.value.Response?
    case TakeError(w, _) => Waits(s, w) && s.handlers[s.inner[w].h].error
    case WriteOnce(w, attempt) => Writes(s, w) && attempt.written <= |s.inner[w].data|
    case Join(_) => true
    case Leave(_) => true
    case Answer(chunk) => chunk in s.requests && SeederReply(cfg, chunk).Some?
    case Noise(msg) => msg.Response? ==> msg.file != cfg.file
    case Enter(msg, h) => msg in s.net && h < |s.handlers| && s.handlers[h].open
    case Deliver(msg, h) => (msg, h) in s.calls && h < |s.handlers|
  }

  function AfterAttempt(attempt: nat): Inner {
    if attempt + 1 < MAX_ATTEMPTS then Attempting(attempt + 1) else Failed
  }

  function Move(s: System, w: nat, inner: Inner): System
    requires w < |s.inner|
  {
    s.(inner := s.inner[w := inner])
  }

  function Close(s: System, h: nat): System
    requires h < |s.handlers|
  {
    s.(handlers := s.handlers[h := s.handlers[h].(open := false)])
  }

  /** The worker registers a handler for its piece, then sends; a failed send closes the handler. */
  function AskPeer(cfg: Config, s: System, w: nat, sent: bool): System
    requires At(s, w) && s.inner[w].Asking? && s.inner[w].left != []
  {
    var i := s.inner[w];
    var piece := s.ctl.workers[w].piece;
    var s' := s.(handlers := s.handlers + [Handler(cfg.file, piece, sent, None, false, w, 0, 0)]);
    if sent then
      Move(s', w, Awaiting(i.attempt, i.left[1..], i.left[0], |s.handlers|)).(requests := s.requests + {piece})
    else
      Move(s', w, Asking(i.attempt, i.left[1..]))
  }

  function Receive(s: System, w: nat): System
    requires Waits(s, w) && s.handlers[s.inner[w].h].response.Some? && s.handlers[s.inner[w].h].response.value.Response?
  {
    var i := s.inner[w];
    var h := s.handlers[i.h];
    Move(s, w, Writing(i.attempt, i.left, i.h, h.response.value.data, 0)).(
      handlers := s.handlers[i.h := h.(response := None, taken := h.taken + 1)])
  }

  /** One round of writeAndVerifyChunk. */
  function WriteStep(cfg: Config, s: System, w: nat, attempt: Attempt): System
    requires Writes(s, w) && attempt.written <= |s.inner[w].data|
  {
    var i := s.inner[w];
    if |i.data| > cfg.chunkSize then
      Close(Move(s, w, Asking(i.attempt, i.left)), i.h)
    else
      var s' := s.(out := WriteAt(s.out, s.ctl.workers[w].piece * cfg.chunkSize, i.data[..attempt.written]));
      if Clean(attempt, i.data) then Close(Move(s', w, Succeeded), i.h)
      else if i.tries + 1 < MAX_WRITES then Move(s', w, i.(tries := i.tries + 1))
      else Close(Move(s', w, Asking(i.attempt, i.left)), i.h)
  }

  ghost function Apply(cfg: Config, s: System, a: Action): System
    requires cfg.chunkSize > 0 && Enabled(cfg, s, a)
  {
    match a
    case Control(step) =>
      s.(ctl := C.Apply(s.ctl, step),
         inner := if step.Launch? then s.inner + [Attempting(0)] else s.inner)
    case Snapshot(w, order) => Move(s, w, Asking(s.inner[w].attempt, order))
    case NoPeers(w) => Move(s, w, AfterAttempt(s.inner[w].attempt))
    case Ask(w, sent) => AskPeer(cfg, s, w, sent)
    case NextAttempt(w) => Move(s, w, AfterAttempt(s.inner[w].attempt))
    case Timeout(w) => Close(Move(s, w, Asking(s.inner[w].attempt, s.inner[w].left)), s.inner[w].h)
    case TakeResponse(w) => Receive(s, w)
    case TakeError(w, removed) =>
      // the peer stays on the list if it is there under another form of its address
      Close(Move(s, w, Asking(s.inner[w].attempt, s.inner[w].left)), s.inner[w].h).(
        peers := if removed then s.peers - {s.inner[w].peer} else s.peers)
    case WriteOnce(w, attempt) => WriteStep(cfg, s, w, attempt)
    case Join(peer) => s.(peers := s.peers + {peer})
    case Leave(peer) => s.(peers := s.peers - {peer})
    case Answer(chunk) => s.(net := s.net + {SeederReply(cfg, chunk).value})
    case Noise(msg) => s.(net := s.net + {msg})
    case Enter(msg, h) => s.(calls := s.calls + multiset{(msg, h)})
    case Deliver(msg, h) =>
      s.(handlers := s.handlers[h := Handle(s.handlers[h], msg)], calls := s.calls - multiset{(msg, h)})
  }

  /** The message carries what ReadChunk returns for the chunk it names. */
  ghost predicate Honest(cfg: Config, m: Message) {
    m.Response? && m.file == cfg.file ==>
      HasChunk(cfg.src, cfg.chunkSize, m.chunk) && m.data == ChunkAt(cfg.src, cfg.chunkSize, m.chunk)
  }

  /** A response that waits in a handler's channel names the handler's file and chunk; at most one was taken. */
  ghost predicate HandlerOk(cfg: Config, h: Handler) {
    && (h.response.Some? ==>
          && h.response.value.Response?
          && h.response.value.file == h.file && h.response.value.chunk == h.chunk
          && Honest(cfg, h.response.value))
    && h.accepted == h.taken + (if h.response.Some? then 1 else 0)
    && h.taken <= 1
  }

  /**
   The state in which DownloadFile enters its main loop, with an empty output file. Earlier downloads
   on the same server, of this file or others, may have left handlers and messages; those of this
   file are closed and honest.
   */
  ghost predicate Initial(cfg: Config, s: System)
    requires cfg.chunkSize > 0
  {
    && C.Initial(s.ctl)
    && (forall i: nat :: i in s.ctl.table <==> i < Total(cfg))
    && s.inner == [] && s.out == []
    && (forall k | 0 <= k < |s.handlers| :: s.handlers[k].file == cfg.file ==> !s.handlers[k].open)
    && (forall k | 0 <= k < |s.handlers| :: HandlerOk(cfg, s.handlers[k]))
    && (forall m | m in s.net :: Honest(cfg, m))
    && (forall c | c in s.calls :: Honest(cfg, c.0))
  }

  ghost predicate Executes(cfg: Config, s: System, actions: seq<Action>, s': System)
    requires cfg.chunkSize > 0
    decreases |actions|
  {
    if actions == [] then s' == s
    else Enabled(cfg, s, actions[0]) && Executes(cfg, Apply(cfg, s, actions[0]), actions[1..], s')
  }
}
