/**
 What a worker does before it gives up: over any run it asks the peers of its snapshots one by one, in
 order, leaving nobody out, and it fails only after three attempts.
 */
module DownloadAttempts {
  import opened Common
  import opened PieceTable
  import opened Assembly
  import opened DownloadSystem
  import opened DownloadSafety
  import opened DownloadLiveness
  import opened DownloadRuns
  import C = DownloadControl

  // ---------------------------------------------------------------- whom a worker asks

  /** The peers of the current attempt that are still to be asked. */
  function Left(i: Inner): seq<Peer> {
    match i
    case Asking(_, left) => left
    case Awaiting(_, left, _, _) => left
    case Writing(_, left, _, _, _) => left
    case _ => []
  }

  function LeftOf(s: System, w: nat): seq<Peer> {
    if w < |s.inner| then Left(s.inner[w]) else []
  }

  predicate HasSucceeded(s: System, w: nat) {
    w < |s.inner| && s.inner[w].Succeeded?
  }

  /** The peers that an attempt of worker w starts with. */
  function Offered(a: Action, w: nat): seq<Peer> {
    if a.Snapshot? && a.w == w then a.order else []
  }

  /** The peer that worker w asks in this step, whether or not the request can be sent. */
  function Contacted(s: System, a: Action, w: nat): seq<Peer> {
    if a.Ask? && a.w == w && LeftOf(s, w) != [] then [LeftOf(s, w)[0]] else []
  }

  /** A step that is not worker w's own inside downloadChunk leaves it where it is, or creates it. */
  lemma StaysPut(cfg: Config, s: System, a: Action, w: nat)
    requires Valid(cfg) && WorkersOk(cfg, s) && Enabled(cfg, s, a)
    requires a.Control? || IsEnvironment(a) || a.w != w
    ensures var s' := Apply(cfg, s, a);
            if w < |s.inner| then w < |s'.inner| && s'.inner[w] == s.inner[w]
            else w < |s'.inner| ==> s'.inner[w] == Attempting(0)
  {
  }

  lemma OwnContact(cfg: Config, s: System, a: Action, w: nat)
    requires Valid(cfg) && Enabled(cfg, s, a) && !a.Control? && !IsEnvironment(a) && a.w == w
    ensures var s' := Apply(cfg, s, a);
            && !HasSucceeded(s, w)
            && (!HasSucceeded(s', w) ==> Contacted(s, a, w) + LeftOf(s', w) == LeftOf(s, w) + Offered(a, w))
  {
  }

  lemma OneContact(cfg: Config, s: System, a: Action, w: nat)
    requires Valid(cfg) && WorkersOk(cfg, s) && Enabled(cfg, s, a)
    ensures HasSucceeded(s, w) ==> HasSucceeded(Apply(cfg, s, a), w)
    ensures !HasSucceeded(Apply(cfg, s, a), w) ==>
              Contacted(s, a, w) + LeftOf(Apply(cfg, s, a), w) == LeftOf(s, w) + Offered(a, w)
  {
    if a.Control? || IsEnvironment(a) || a.w != w {
      StaysPut(cfg, s, a, w);
    } else {
      OwnContact(cfg, s, a, w);
    }
  }

  /** The peers that worker w asks in a run, in order. */
  ghost function Contacts(cfg: Config, s: System, actions: seq<Action>, s': System, w: nat): seq<Peer>
    requires Valid(cfg) && Executes(cfg, s, actions, s')
    decreases |actions|
  {
    if actions == [] then []
    else Contacted(s, actions[0], w) + Contacts(cfg, Apply(cfg, s, actions[0]), actions[1..], s', w)
  }

  /** The peers that its attempts start with, one attempt after the other. */
  function Offers(actions: seq<Action>, w: nat): seq<Peer> {
    if actions == [] then [] else Offered(actions[0], w) + Offers(actions[1..], w)
  }

  lemma {:induction false} SuccessStays(cfg: Config, s: System, actions: seq<Action>, s': System, w: nat)
    requires Valid(cfg) && Inv(cfg, s) && Executes(cfg, s, actions, s') && HasSucceeded(s, w)
    ensures HasSucceeded(s', w)
    decreases |actions|
  {
    if actions != [] {
      InvKept(cfg, s, actions[0]);
      OneContact(cfg, s, actions[0], w);
      SuccessStays(cfg, Apply(cfg, s, actions[0]), actions[1..], s', w);
    }
  }

  lemma Chained<T>(a: seq<T>, b: seq<T>, c: seq<T>, d: seq<T>, left: seq<T>, mid: seq<T>, end: seq<T>)
    requires a + mid == left + c && b + end == mid + d
    ensures (a + b) + end == left + (c + d)
  {
    assert (a + b) + end == a + (b + end);
    assert a + (mid + d) == (a + mid) + d;
  }

  /**
   Nobody is left out: until a worker succeeds, the peers it has asked, followed by those still to be
   asked, are exactly the peers of its attempts in their shuffled order.
   */
  lemma {:induction false} ContactsExact(cfg: Config, s: System, actions: seq<Action>, s': System, w: nat)
    requires Valid(cfg) && Inv(cfg, s) && Executes(cfg, s, actions, s') && !HasSucceeded(s', w)
    ensures Contacts(cfg, s, actions, s', w) + LeftOf(s', w) == LeftOf(s, w) + Offers(actions, w)
    decreases |actions|
  {
    if actions != [] {
      var next := Apply(cfg, s, actions[0]);
      InvKept(cfg, s, actions[0]);
      OneContact(cfg, s, actions[0], w);
      if HasSucceeded(next, w) {
        SuccessStays(cfg, next, actions[1..], s', w);
        assert false;
      }
      ContactsExact(cfg, next, actions[1..], s', w);
      Chained(Contacted(s, actions[0], w), Contacts(cfg, next, actions[1..], s', w),
              Offered(actions[0], w), Offers(actions[1..], w), LeftOf(s, w), LeftOf(next, w), LeftOf(s', w));
    }
  }

  /** The peer whose answer worker w waits for. */
  function Awaited(s: System, w: nat): Option<Peer> {
    if w < |s.inner| && s.inner[w].Awaiting? then Some(s.inner[w].peer) else None
  }

  lemma AwaitsContacted(cfg: Config, s: System, a: Action, w: nat)
    requires Valid(cfg) && WorkersOk(cfg, s) && Enabled(cfg, s, a) && Awaited(Apply(cfg, s, a), w).Some?
    ensures Contacted(s, a, w) == [Awaited(Apply(cfg, s, a), w).value]
            || (Contacted(s, a, w) == [] && Awaited(s, w) == Awaited(Apply(cfg, s, a), w))
  {
    if a.Control? || IsEnvironment(a) || a.w != w {
      StaysPut(cfg, s, a, w);
    }
  }

  /** A worker waits for the peer that it asked last. */
  lemma {:induction false} AwaitsLastContact(cfg: Config, s: System, actions: seq<Action>, s': System, w: nat)
    requires Valid(cfg) && Inv(cfg, s) && Executes(cfg, s, actions, s') && Awaited(s', w).Some?
    ensures var contacts := Contacts(cfg, s, actions, s', w);
            if contacts == [] then Awaited(s, w) == Awaited(s', w)
            else contacts[|contacts| - 1] == Awaited(s', w).value
    decreases |actions|
  {
    if actions != [] {
      var next := Apply(cfg, s, actions[0]);
      InvKept(cfg, s, actions[0]);
      AwaitsLastContact(cfg, next, actions[1..], s', w);
      if Contacts(cfg, next, actions[1..], s', w) == [] {
        AwaitsContacted(cfg, s, actions[0], w);
      }
    }
  }

  // ---------------------------------------------------------------- how often it tries

  /** The action begins an attempt of worker w. */
  function Begins(a: Action, w: nat): nat {
    if (a.Snapshot? || a.NoPeers?) && a.w == w then 1 else 0
  }

  function Rounds(actions: seq<Action>, w: nat): nat {
    if actions == [] then 0 else Begins(actions[0], w) + Rounds(actions[1..], w)
  }

  /** The attempts begun by a worker that has not succeeded. */
  function RoundsOf(s: System, w: nat): nat {
    if w >= |s.inner| then 0
    else
      match s.inner[w]
      case Attempting(k) => k
      case Asking(k, _) => k + 1
      case Awaiting(k, _, _, _) => k + 1
      case Writing(k, _, _, _, _) => k + 1
      case Failed => 3
      case Succeeded => 0
  }

  predicate Trying(i: Inner) {
    match i
    case Attempting(k) => k < 3
    case Asking(k, _) => k < 3
    case Awaiting(k, _, _, _) => k < 3
    case Writing(k, _, _, _, _) => k < 3
    case _ => true
  }

  ghost predicate AllTrying(s: System) {
    forall w | 0 <= w < |s.inner| :: Trying(s.inner[w])
  }

  lemma TryingKept(cfg: Config, s: System, a: Action)
    requires Valid(cfg) && Enabled(cfg, s, a) && AllTrying(s)
    ensures AllTrying(Apply(cfg, s, a))
  {
  }

  lemma OwnRound(cfg: Config, s: System, a: Action, w: nat)
    requires Valid(cfg) && Enabled(cfg, s, a) && AllTrying(s)
    requires !a.Control? && !IsEnvironment(a) && a.w == w && !HasSucceeded(Apply(cfg, s, a), w)
    ensures RoundsOf(Apply(cfg, s, a), w) == RoundsOf(s, w) + Begins(a, w)
  {
  }

  lemma OneRound(cfg: Config, s: System, a: Action, w: nat)
    requires Valid(cfg) && WorkersOk(cfg, s) && Enabled(cfg, s, a) && AllTrying(s)
    requires !HasSucceeded(Apply(cfg, s, a), w)
    ensures RoundsOf(Apply(cfg, s, a), w) == RoundsOf(s, w) + Begins(a, w)
  {
    if a.Control? || IsEnvironment(a) || a.w != w {
      StaysPut(cfg, s, a, w);
    } else {
      OwnRound(cfg, s, a, w);
    }
  }

  lemma {:induction false} RoundsExact(cfg: Config, s: System, actions: seq<Action>, s': System, w: nat)
    requires Valid(cfg) && Inv(cfg, s) && AllTrying(s) && Executes(cfg, s, actions, s') && !HasSucceeded(s', w)
    ensures RoundsOf(s', w) == RoundsOf(s, w) + Rounds(actions, w)
    decreases |actions|
  {
    if actions != [] {
      var next := Apply(cfg, s, actions[0]);
      InvKept(cfg, s, actions[0]);
      TryingKept(cfg, s, actions[0]);
      if HasSucceeded(next, w) {
        SuccessStays(cfg, next, actions[1..], s', w);
        assert false;
      }
      OneRound(cfg, s, actions[0], w);
      RoundsExact(cfg, next, actions[1..], s', w);
    }
  }

  /** A worker fails only after three attempts, in which it has asked every peer it set out with, in order. */
  lemma FailsOnlyAfterAll(cfg: Config, s0: System, actions: seq<Action>, s: System, w: nat)
    requires Valid(cfg) && Initial(cfg, s0) && Executes(cfg, s0, actions, s)
    requires w < |s.inner| && s.inner[w].Failed?
    ensures Rounds(actions, w) == 3
    ensures Contacts(cfg, s0, actions, s, w) == Offers(actions, w)
  {
    InitialInv(cfg, s0);
    RoundsExact(cfg, s0, actions, s, w);
    ContactsExact(cfg, s0, actions, s, w);
    NothingAround(Contacts(cfg, s0, actions, s, w), Offers(actions, w));
  }

  lemma NothingAround<T>(a: seq<T>, b: seq<T>)
    requires a + [] == [] + b
    ensures a == b
  {
    assert a + [] == a && [] + b == b;
  }

  /**
   In each attempt of a worker that failed it asked every peer that was connected when the attempt
   began.
   */
  lemma EveryPeerAsked(cfg: Config, s0: System, actions: seq<Action>, s: System, w: nat, n: nat, p: Peer)
    requires Valid(cfg) && Initial(cfg, s0) && Executes(cfg, s0, actions, s)
    requires w < |s.inner| && s.inner[w].Failed?
    requires n < |actions| && Begins(actions[n], w) == 1 && p in After(cfg, s0, actions, s, n).peers
    ensures p in Contacts(cfg, s0, actions, s, w)
  {
    FailsOnlyAfterAll(cfg, s0, actions, s, w);
    AfterNext(cfg, s0, actions, s, n);
    var before := After(cfg, s0, actions, s, n);
    InOrder(cfg, before, actions[n], w, p);
    OfferedInOffers(actions, n, w, p);
  }

  lemma InOrder(cfg: Config, s: System, a: Action, w: nat, p: Peer)
    requires Valid(cfg) && Enabled(cfg, s, a) && Begins(a, w) == 1 && p in s.peers
    ensures p in Offered(a, w)
  {
    if a.Snapshot? {
      assert p in multiset(s.peers);
      assert p in multiset(a.order);
    }
  }

  lemma {:induction false} OfferedInOffers(actions: seq<Action>, n: nat, w: nat, p: Peer)
    requires n < |actions| && p in Offered(actions[n], w)
    ensures p in Offers(actions, w)
  {
    if n > 0 {
      OfferedInOffers(actions[1..], n - 1, w, p);
    }
  }

  // ---------------------------------------------------------------- single turns

  /**
   A response of the wrong type makes the worker that waits for this handler drop the peer and go on
   with the next one; the peer leaves the list unless it is there under another form of its address.
   */
  lemma BadPayloadDropsPeer(cfg: Config, s: System, w: nat, removed: bool) returns (s': System)
    requires Valid(cfg) && Inv(cfg, s) && Waits(s, w) && BadPayload in s.net
    ensures var i := s.inner[w];
            && Executes(cfg, s, [Enter(BadPayload, i.h), Deliver(BadPayload, i.h), TakeError(w, removed)], s')
            && s'.inner == s.inner[w := Asking(i.attempt, i.left)] && s'.ctl == s.ctl
            && s'.peers == (if removed then s.peers - {i.peer} else s.peers)
            && i.h < |s'.handlers| && !s'.handlers[i.h].open
  {
    assert WorkerOk(cfg, s, w);
    var h := s.inner[w].h;
    var entered := Apply(cfg, s, Enter(BadPayload, h));
    var delivered := Apply(cfg, entered, Deliver(BadPayload, h));
    assert delivered.handlers[h].error;
    ExtendTwice(cfg, s, [], s, Enter(BadPayload, h), Deliver(BadPayload, h));
    Extend(cfg, s, [] + [Enter(BadPayload, h), Deliver(BadPayload, h)], delivered, TakeError(w, removed));
    s' := Apply(cfg, delivered, TakeError(w, removed));
    assert [] + [Enter(BadPayload, h), Deliver(BadPayload, h)] + [TakeError(w, removed)]
        == [Enter(BadPayload, h), Deliver(BadPayload, h), TakeError(w, removed)];
  }

  /** Oversized data is not written at all, and the worker goes on with the next peer. */
  lemma OversizedNotWritten(cfg: Config, s: System, w: nat, attempt: Attempt)
    requires Valid(cfg) && Enabled(cfg, s, WriteOnce(w, attempt)) && |s.inner[w].data| > cfg.chunkSize
    ensures var s', i := Apply(cfg, s, WriteOnce(w, attempt)), s.inner[w];
            && s'.out == s.out && s'.ctl == s.ctl && s'.inner == s.inner[w := Asking(i.attempt, i.left)]
            && !s'.handlers[i.h].open
  {
  }

  /** DownloadFile returns early only because it found nobody connected and could not reconnect. */
  lemma {:induction false} AbortsWithoutPeers(cfg: Config, s: System, actions: seq<Action>, s': System) returns (n: nat)
    requires Valid(cfg) && Executes(cfg, s, actions, s') && !s.ctl.pc.Aborted? && s'.ctl.pc.Aborted?
    ensures n < |actions| && actions[n] == Control(C.ReadPeers(0, false))
    ensures After(cfg, s, actions, s', n).peers == {}
    decreases |actions|
  {
    var a := actions[0];
    var next := Apply(cfg, s, a);
    if a.Control? {
      C.AbortsNow(s.ctl, a.step);
    } else {
      assert next.ctl == s.ctl;
    }
    if next.ctl.pc.Aborted? {
      n := 0;
    } else {
      var m := AbortsWithoutPeers(cfg, next, actions[1..], s');
      n := m + 1;
    }
  }
}
