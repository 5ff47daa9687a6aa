/** What the tracker knows after any history of events, said in terms of the history alone. */
module TrackerHistory {
  import opened Common
  import opened TrackerSpec
  import R = TrackerRefinement

  datatype Action =
    | DoAnnounce(f: File, p: Peer, info: Info)
    | DoHeartbeat(p: Peer, fs: seq<File>)
    | DoRemove(f: File, p: Peer)
    | DoRemovePeer(p: Peer)
    | DoActivity(p: Peer)
    | DoExpireInactive
    | DoGetPeers(f: File)

  datatype Event = Event(now: Time, action: Action)

  function Step(t: Tracker, e: Event): Tracker {
    match e.action
    case DoAnnounce(f, p, info) => Announce(t, f, p, info, e.now)
    case DoHeartbeat(p, fs) => Heartbeat(t, p, fs, e.now)
    case DoRemove(f, p) => Remove(t, f, p)
    case DoRemovePeer(p) => RemovePeer(t, p)
    case DoActivity(p) => Touch(t, p, e.now)
    case DoExpireInactive => ExpireInactive(t, e.now)
    case DoGetPeers(_) => ExpireStale(t, e.now)
  }

  function Run(h: seq<Event>): Tracker {
    if h == [] then EMPTY else Step(Run(h[..|h| - 1]), h[|h| - 1])
  }

  // ---------------------------------------------------------------- reading a history

  /** Announcing, heartbeating and plain activity all count as being seen. */
  predicate Active(e: Event, p: Peer) {
    (e.action.DoAnnounce? || e.action.DoHeartbeat? || e.action.DoActivity?) && e.action.p == p
  }

  /** When the peer was last active, if ever. */
  function LastActive(h: seq<Event>, p: Peer): Option<Time> {
    if h == [] then None
    else if Active(h[|h| - 1], p) then Some(h[|h| - 1].now)
    else LastActive(h[..|h| - 1], p)
  }

  predicate Overdue(h: seq<Event>, p: Peer, now: Time) {
    LastActive(h, p).Some? && now - LastActive(h, p).value > 120
  }

  /** The event says that the peer shares the file. */
  predicate Adds(e: Event, f: File, p: Peer) {
    match e.action
    case DoAnnounce(g, q, _) => g == f && q == p
    case DoHeartbeat(q, fs) => q == p && f in fs
    case _ => false
  }

  /** The event, coming after history h, ends the peer's sharing of the file. */
  predicate Drops(h: seq<Event>, e: Event, f: File, p: Peer) {
    match e.action
    case DoHeartbeat(q, fs) => q == p && f !in fs
    case DoRemove(g, q) => g == f && q == p
    case DoRemovePeer(q) => q == p
    case DoExpireInactive => Overdue(h, p, e.now)
    case DoGetPeers(_) => Overdue(h, p, e.now)
    case _ => false
  }

  ghost predicate ListedSince(h: seq<Event>, k: nat, f: File, p: Peer) {
    && k < |h| && Adds(h[k], f, p)
    && forall j | k < j < |h| :: !Drops(h[..j], h[j], f, p)
  }

  /** The latest event about this peer and file was an addition. */
  ghost predicate Listed(h: seq<Event>, f: File, p: Peer) {
    exists k: nat :: ListedSince(h, k, f, p)
  }

  lemma ListedSinceAppend(h: seq<Event>, e: Event, k: nat, f: File, p: Peer)
    requires k < |h|
    ensures ListedSince(h + [e], k, f, p) <==> ListedSince(h, k, f, p) && !Drops(h, e, f, p)
  {
    var h' := h + [e];
    assert forall j | 0 <= j <= |h| :: h'[..j] == h[..j];
    assert h[..|h|] == h;
    assert forall j | 0 <= j < |h| :: h'[j] == h[j];
    if ListedSince(h', k, f, p) {
      assert !Drops(h'[..|h|], h'[|h|], f, p);
    }
  }

  lemma ListedAppend(h: seq<Event>, e: Event, f: File, p: Peer)
    ensures Listed(h + [e], f, p) <==> Adds(e, f, p) || (Listed(h, f, p) && !Drops(h, e, f, p))
  {
    var h' := h + [e];
    if Adds(e, f, p) {
      assert ListedSince(h', |h|, f, p);
    }
    if Listed(h, f, p) && !Drops(h, e, f, p) {
      var k: nat :| ListedSince(h, k, f, p);
      ListedSinceAppend(h, e, k, f, p);
    }
    if Listed(h', f, p) {
      var k: nat :| ListedSince(h', k, f, p);
      if k < |h| {
        ListedSinceAppend(h, e, k, f, p);
      }
    }
  }

  // ---------------------------------------------------------------- invariants of every run

  lemma StepInv(t: Tracker, e: Event)
    requires Inv(t)
    ensures Inv(Step(t, e))
  {
    match e.action
    case DoAnnounce(f, p, info) => AnnounceInv(t, f, p, info, e.now);
    case DoHeartbeat(p, fs) => HeartbeatInv(t, p, fs, e.now);
    case DoRemove(f, p) => RemoveInv(t, f, p);
    case DoRemovePeer(p) => ForgetInv(t, {p});
    case DoActivity(p) =>
    case DoExpireInactive => R.InactiveInv(t, e.now);
    case DoGetPeers(_) => R.InactiveInv(t, e.now);
  }

  /**
   In every reachable state each file with metadata has a non-empty list of exactly NumPeers peers
   and every listed peer has a last-seen time.
   */
  lemma {:induction false} RunInv(h: seq<Event>)
    ensures Inv(Run(h))
  {
    if h != [] {
      RunInv(h[..|h| - 1]);
      StepInv(Run(h[..|h| - 1]), h[|h| - 1]);
    }
  }

  lemma StepSeen(t: Tracker, e: Event, p: Peer)
    requires Inv(t) && p in Step(t, e).seen
    ensures Active(e, p) ==> Step(t, e).seen[p] == e.now
    ensures !Active(e, p) ==> p in t.seen && Step(t, e).seen[p] == t.seen[p]
  {
    if e.action.DoHeartbeat? {
      R.HeartbeatExact(t, e.action.p, e.action.fs, e.now, "");
    }
  }

  /** A last-seen time is the time of the peer's last activity. */
  lemma {:induction false} SeenIsLastActive(h: seq<Event>, p: Peer)
    ensures p in Run(h).seen ==> LastActive(h, p) == Some(Run(h).seen[p])
  {
    if h != [] && p in Run(h).seen {
      var before, e := h[..|h| - 1], h[|h| - 1];
      RunInv(before);
      StepSeen(Run(before), e, p);
      SeenIsLastActive(before, p);
    }
  }

  // ---------------------------------------------------------------- who is listed

  lemma StepListed(h: seq<Event>, e: Event, f: File, p: Peer)
    ensures p in Sharers(Step(Run(h), e), f)
            <==> Adds(e, f, p) || (p in Sharers(Run(h), f) && !Drops(h, e, f, p))
  {
    var t := Run(h);
    RunInv(h);
    match e.action
    case DoAnnounce(_, _, _) =>
    case DoHeartbeat(q, fs) => R.HeartbeatExact(t, q, fs, e.now, f);
    case DoRemove(g, q) => R.RemoveEffect(t, g, q, f);
    case DoRemovePeer(q) => R.PurgeEffect(t, {q}, {}, f);
    case DoActivity(_) =>
    case DoExpireInactive => ExpiryListed(h, e.now, f, p);
    case DoGetPeers(_) => ExpiryListed(h, e.now, f, p);
  }

  lemma ExpiryListed(h: seq<Event>, now: Time, f: File, p: Peer)
    ensures p in Sharers(ExpireStale(Run(h), now), f) <==> p in Sharers(Run(h), f) && !Overdue(h, p, now)
    ensures p in Sharers(ExpireInactive(Run(h), now), f) <==> p in Sharers(Run(h), f) && !Overdue(h, p, now)
  {
    RunInv(h);
    R.ExpiriesAgree(Run(h), now);
    SeenIsLastActive(h, p);
    R.FreshExactly(Run(h), f, now, p);
  }

  /**
   A peer is listed for a file if and only if the latest event about the two was an announcement or
   a heartbeat naming the file, rather than a removal, a heartbeat omitting it, the peer's removal,
   or an expiry more than 120 seconds after the peer's last activity.
   */
  lemma {:induction false} ListedByHistory(h: seq<Event>, f: File, p: Peer)
    ensures p in Sharers(Run(h), f) <==> Listed(h, f, p)
  {
    if h != [] {
      var before, e := h[..|h| - 1], h[|h| - 1];
      assert h == before + [e];
      ListedByHistory(before, f, p);
      StepListed(before, e, f, p);
      ListedAppend(before, e, f, p);
    }
  }

  /** What a request for peers answers, from the history: listed, and active in the last 120 seconds. */
  lemma AnswerByHistory(h: seq<Event>, f: File, now: Time, p: Peer)
    ensures p in Sharers(ExpireStale(Run(h), now), f)
            <==> Listed(h, f, p) && LastActive(h, p).Some? && now - LastActive(h, p).value <= 120
  {
    RunInv(h);
    SeenIsLastActive(h, p);
    ListedByHistory(h, f, p);
    R.FreshExactly(Run(h), f, now, p);
  }

  // ---------------------------------------------------------------- which files have metadata

  predicate Announces(e: Event, f: File) {
    e.action.DoAnnounce? && e.action.f == f
  }

  ghost predicate AnyListed(h: seq<Event>, f: File) {
    exists p :: Listed(h, f, p)
  }

  ghost predicate SharedSince(h: seq<Event>, k: nat, f: File) {
    && k < |h| && Announces(h[k], f)
    && forall m | k < m <= |h| :: AnyListed(h[..m], f)
  }

  /** Some announcement was never followed by a moment without sharers. */
  ghost predicate Described(h: seq<Event>, f: File) {
    exists k: nat :: SharedSince(h, k, f)
  }

  lemma AnyListedMeans(h: seq<Event>, f: File)
    ensures AnyListed(h, f) <==> Sharers(Run(h), f) != {}
  {
    if AnyListed(h, f) {
      var p :| Listed(h, f, p);
      ListedByHistory(h, f, p);
    }
    if Sharers(Run(h), f) != {} {
      var p :| p in Sharers(Run(h), f);
      ListedByHistory(h, f, p);
    }
  }

  /** Expiry, by either routine, leaves the metadata of the files that still have a sharer. */
  lemma ExpiryMeta(t: Tracker, now: Time, f: File)
    requires Inv(t)
    ensures var t' := ExpireStale(t, now);
            && (f in t'.files <==> f in t.files && Sharers(t', f) != {})
            && (f in t'.files ==> t'.files[f].meta == t.files[f].meta)
    ensures ExpireInactive(t, now).files == ExpireStale(t, now).files
    ensures Sharers(ExpireInactive(t, now), f) == Sharers(ExpireStale(t, now), f)
  {
    R.ExpiriesAgree(t, now);
    R.PurgeEffect(t, Stale(t, now), {}, f);
  }

  lemma AnnounceMeta(t: Tracker, f: File, p: Peer, info: Info, now: Time, g: File)
    ensures var t' := Announce(t, f, p, info, now);
            && (g in t'.files <==> g == f || g in t.files)
            && (g != f ==> Sharers(t', g) == Sharers(t, g))
            && (g in t'.files ==>
                  t'.files[g].meta == if g == f then Announced(MetaOf(t, f), info, now) else t.files[g].meta)
  {
  }

  lemma StepMeta(t: Tracker, e: Event, f: File)
    requires Inv(t)
    ensures var t' := Step(t, e);
            && (f in t'.files <==> Announces(e, f) || (f in t.files && Sharers(t', f) != {}))
            && (f in t'.files ==>
                  t'.files[f].meta == if Announces(e, f) then Announced(MetaOf(t, f), e.action.info, e.now)
                                      else t.files[f].meta)
  {
    match e.action
    case DoAnnounce(g, p, info) => AnnounceMeta(t, g, p, info, e.now, f);
    case DoHeartbeat(q, fs) => R.HeartbeatExact(t, q, fs, e.now, f);
    case DoRemove(g, q) => R.RemoveEffect(t, g, q, f);
    case DoRemovePeer(q) => R.PurgeEffect(t, {q}, {}, f);
    case DoActivity(_) =>
    case DoExpireInactive => ExpiryMeta(t, e.now, f);
    case DoGetPeers(_) => ExpiryMeta(t, e.now, f);
  }

  lemma SharedSinceAppend(h: seq<Event>, e: Event, k: nat, f: File)
    requires k < |h|
    ensures SharedSince(h + [e], k, f) <==> SharedSince(h, k, f) && AnyListed(h + [e], f)
  {
    var h' := h + [e];
    assert forall m | 0 <= m <= |h| :: h'[..m] == h[..m];
    assert h'[..|h'|] == h';
    assert h'[k] == h[k];
    if SharedSince(h', k, f) {
      assert AnyListed(h'[..|h'|], f);
      forall m | k < m <= |h| ensures AnyListed(h[..m], f) {
        assert AnyListed(h'[..m], f);
      }
    }
    if SharedSince(h, k, f) && AnyListed(h', f) {
      forall m | k < m <= |h'| ensures AnyListed(h'[..m], f) {
        if m <= |h| {
          assert AnyListed(h[..m], f);
        }
      }
    }
  }

  lemma DescribedAppend(h: seq<Event>, e: Event, f: File)
    requires Announces(e, f) ==> AnyListed(h + [e], f)
    ensures Described(h + [e], f) <==> Announces(e, f) || (Described(h, f) && AnyListed(h + [e], f))
  {
    var h' := h + [e];
    if Announces(e, f) {
      assert h'[..|h'|] == h';
      assert SharedSince(h', |h|, f);
    }
    if Described(h, f) && AnyListed(h', f) {
      var k: nat :| SharedSince(h, k, f);
      SharedSinceAppend(h, e, k, f);
    }
    if Described(h', f) {
      var k: nat :| SharedSince(h', k, f);
      if k < |h| {
        SharedSinceAppend(h, e, k, f);
      }
    }
  }

  /**
   A file has metadata if and only if some announcement of it was followed by sharers at every
   later moment; an orphan list made by heartbeats alone never gives a file metadata.
   */
  lemma {:induction false} DescribedByHistory(h: seq<Event>, f: File)
    ensures f in Run(h).files <==> Described(h, f)
  {
    if h != [] {
      var before, e := h[..|h| - 1], h[|h| - 1];
      assert h == before + [e];
      DescribedByHistory(before, f);
      RunInv(before);
      StepMeta(Run(before), e, f);
      AnyListedMeans(h, f);
      if Announces(e, f) {
        StepListed(before, e, f, e.action.p);
        ListedByHistory(h, f, e.action.p);
      }
      DescribedAppend(before, e, f);
    }
  }

  /** Shared ever since event k announced it, and every announcement since gave the same total hash. */
  ghost predicate ServedSince(h: seq<Event>, k: nat, f: File) {
    && SharedSince(h, k, f)
    && forall j | k < j < |h| && Announces(h[j], f) :: h[j].action.info.totalHash == h[k].action.info.totalHash
  }

  /** Event k is the earliest such announcement. */
  ghost predicate ServedFirst(h: seq<Event>, k: nat, f: File) {
    ServedSince(h, k, f) && forall i: nat | i < k :: !ServedSince(h, i, f)
  }

  lemma ServedSinceAppend(h: seq<Event>, e: Event, k: nat, f: File)
    requires k < |h|
    ensures ServedSince(h + [e], k, f) <==>
            && ServedSince(h, k, f) && AnyListed(h + [e], f)
            && (Announces(e, f) ==> e.action.info.totalHash == h[k].action.info.totalHash)
  {
    SharedSinceAppend(h, e, k, f);
    var h' := h + [e];
    assert h'[k] == h[k] && h'[|h|] == e;
    assert forall j | 0 <= j < |h| :: h'[j] == h[j];
    if ServedSince(h', k, f) {
      forall j | k < j < |h| && Announces(h[j], f)
        ensures h[j].action.info.totalHash == h[k].action.info.totalHash
      {
        assert Announces(h'[j], f);
      }
    }
  }

  /** The earliest announcement stays the earliest as long as the metadata stays. */
  lemma ServedFirstKept(h: seq<Event>, e: Event, k: nat, f: File)
    requires ServedFirst(h, k, f) && AnyListed(h + [e], f)
    requires Announces(e, f) ==> e.action.info.totalHash == h[k].action.info.totalHash
    ensures ServedFirst(h + [e], k, f)
  {
    ServedSinceAppend(h, e, k, f);
    forall i: nat | i < k ensures !ServedSince(h + [e], i, f) {
      ServedSinceAppend(h, e, i, f);
    }
  }

  /** An announcement with a total hash that differs from the one being served starts anew. */
  lemma ServedAnew(h: seq<Event>, e: Event, f: File)
    requires Announces(e, f) && AnyListed(h + [e], f)
    requires forall k: nat | ServedFirst(h, k, f) :: h[k].action.info.totalHash != e.action.info.totalHash
    ensures ServedFirst(h + [e], |h|, f)
  {
    var h' := h + [e];
    assert h'[..|h'|] == h';
    assert SharedSince(h', |h|, f);
    forall i: nat | i < |h| ensures !ServedSince(h', i, f) {
      ServedSinceAppend(h, e, i, f);
      if ServedSince(h, i, f) {
        var k := Earliest(h, i, f);
        assert k < i ==> Announces(h[i], f);
      }
    }
  }

  lemma {:induction false} Earliest(h: seq<Event>, i: nat, f: File) returns (k: nat)
    requires ServedSince(h, i, f)
    ensures k <= i && ServedFirst(h, k, f)
  {
    if j: nat :| j < i && ServedSince(h, j, f) {
      k := Earliest(h, j, f);
    } else {
      k := i;
    }
  }

  /**
   The metadata served, all of it, is that of one announcement, with the time of that announcement:
   the earliest since which the file was always shared and only announced with the same total hash.
   */
  lemma {:induction false} ServedByHistory(h: seq<Event>, f: File) returns (k: nat)
    requires f in Run(h).files
    ensures ServedFirst(h, k, f) && Run(h).files[f].meta == Meta(h[k].action.info, h[k].now)
  {
    LastMeta(h, f);
    var before, e := h[..|h| - 1], h[|h| - 1];
    assert h == before + [e];
    if f in Run(before).files {
      var k0 := ServedByHistory(before, f);
      k := ServedOn(before, e, k0, f);
    } else {
      k := |before|;
      NotServed(before, f);
      ServedAnew(before, e, f);
    }
  }

  /** One more event: the announcement stays the one being served, or the event takes its place. */
  lemma ServedOn(before: seq<Event>, e: Event, k0: nat, f: File) returns (k: nat)
    requires f in Run(before).files && f in Run(before + [e]).files
    requires ServedFirst(before, k0, f) && Run(before).files[f].meta == Meta(before[k0].action.info, before[k0].now)
    ensures ServedFirst(before + [e], k, f)
    ensures Run(before + [e]).files[f].meta == Meta((before + [e])[k].action.info, (before + [e])[k].now)
  {
    var h := before + [e];
    assert h[..|h| - 1] == before;
    LastMeta(h, f);
    if Announces(e, f) && e.action.info.totalHash != before[k0].action.info.totalHash {
      k := |before|;
      OnlyFirst(before, k0, f);
      ServedAnew(before, e, f);
    } else {
      k := k0;
      ServedFirstKept(before, e, k0, f);
    }
  }

  /** What the last event made of the metadata. */
  lemma LastMeta(h: seq<Event>, f: File)
    requires f in Run(h).files
    ensures h != [] && AnyListed(h, f)
    ensures var before, e := Run(h[..|h| - 1]), h[|h| - 1];
            && (Announces(e, f) ==> Run(h).files[f].meta == Announced(MetaOf(before, f), e.action.info, e.now))
            && (!Announces(e, f) ==> f in before.files && Run(h).files[f].meta == before.files[f].meta)
  {
    RunInv(h[..|h| - 1]);
    StepMeta(Run(h[..|h| - 1]), h[|h| - 1], f);
    RunInv(h);
    AnyListedMeans(h, f);
  }

  lemma OnlyFirst(h: seq<Event>, k: nat, f: File)
    requires ServedFirst(h, k, f)
    ensures forall i: nat :: ServedFirst(h, i, f) <==> i == k
  {
  }

  lemma NotServed(h: seq<Event>, f: File)
    requires f !in Run(h).files
    ensures forall k: nat :: !ServedFirst(h, k, f)
  {
    DescribedByHistory(h, f);
  }

  /** The latest announcement of the file. */
  function LastAnnounced(h: seq<Event>, f: File): Option<Info> {
    if h == [] then None
    else if Announces(h[|h| - 1], f) then Some(h[|h| - 1].action.info)
    else LastAnnounced(h[..|h| - 1], f)
  }

  /** The metadata served always carries the total hash of the latest announcement. */
  lemma {:induction false} HashIsLatest(h: seq<Event>, f: File)
    ensures f in Run(h).files ==>
              LastAnnounced(h, f).Some? && Run(h).files[f].meta.info.totalHash == LastAnnounced(h, f).value.totalHash
  {
    if h != [] {
      var before, e := h[..|h| - 1], h[|h| - 1];
      HashIsLatest(before, f);
      RunInv(before);
      StepMeta(Run(before), e, f);
    }
  }

  // ---------------------------------------------------------------- refinement of whole runs

  ghost function AbstractStep(a: R.Abstract, e: Event): R.Abstract {
    match e.action
    case DoAnnounce(f, p, info) => R.AbstractAnnounce(a, f, p, info, e.now)
    case DoHeartbeat(p, fs) => R.AbstractHeartbeat(a, p, Elements(fs), e.now)
    case DoRemove(f, p) => R.AbstractRemove(a, f, p)
    case DoRemovePeer(p) => R.AbstractForget(a, {p})
    case DoActivity(p) => a.(seen := a.seen[p := e.now])
    case DoExpireInactive => R.AbstractExpire(a, e.now)
    case DoGetPeers(_) => R.AbstractExpire(a, e.now)
  }

  ghost function AbstractRun(h: seq<Event>): R.Abstract {
    if h == [] then R.Abstract({}, map[], map[]) else AbstractStep(AbstractRun(h[..|h| - 1]), h[|h| - 1])
  }

  lemma StepRefines(t: Tracker, e: Event)
    requires Inv(t)
    ensures R.Alpha(Step(t, e)) == AbstractStep(R.Alpha(t), e)
  {
    match e.action
    case DoAnnounce(f, p, info) => R.AnnounceSimulates(t, f, p, info, e.now);
    case DoHeartbeat(p, fs) => R.HeartbeatSimulates(t, p, fs, e.now);
    case DoRemove(f, p) => R.RemoveSimulates(t, f, p);
    case DoRemovePeer(p) => R.RemovePeerSimulates(t, p);
    case DoActivity(p) => assert R.Alpha(Touch(t, p, e.now)).shares == R.Alpha(t).shares;
    case DoExpireInactive => R.ExpireSimulates(t, e.now);
    case DoGetPeers(_) => R.ExpireSimulates(t, e.now);
  }

  /** Every run of the tracker is a run of the abstract tracker. */
  lemma {:induction false} RunRefines(h: seq<Event>)
    ensures R.Alpha(Run(h)) == AbstractRun(h)
  {
    if h == [] {
      assert R.Alpha(EMPTY).shares == {};
    } else {
      RunRefines(h[..|h| - 1]);
      RunInv(h[..|h| - 1]);
      StepRefines(Run(h[..|h| - 1]), h[|h| - 1]);
    }
  }
}
