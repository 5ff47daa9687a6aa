/**
 The tracker's three maps as a value, what each handler and clean-up routine does to them, and the
 small abstract tracker that they implement.
 */
module TrackerSpec {
  import opened Common

  type File = string
  type Peer = string

  /** Seconds on a clock. */
  type Time = int

  const INACTIVITY_THRESHOLD: Time := 120

  /** What an announcement says about a file. */
  datatype Info = Info(
    name: string, size: int, description: string, categories: seq<string>, extension: string,
    numChunks: int, chunkSize: int, chunkHashes: seq<string>, totalHash: string, totalSize: int)

  /** A FileInfo without its cached peer count. */
  datatype Meta = Meta(info: Info, uploadedAt: Time)

  datatype Entry = Entry(meta: Meta, numPeers: int)

  /** fileIndex, peerIndex and peerLastSeen. */
  datatype Tracker = Tracker(files: map<File, Entry>, sharers: map<File, set<Peer>>, seen: map<Peer, Time>)

  const EMPTY: Tracker := Tracker(map[], map[], map[])

  function Sharers(t: Tracker, f: File): set<Peer> {
    if f in t.sharers then t.sharers[f] else {}
  }

  // ---------------------------------------------------------------- operations

  /** Metadata is replaced only when the file is new or its total hash has changed. */
  function Announced(old': Option<Meta>, info: Info, now: Time): Meta {
    if old'.None? || old'.value.info.totalHash != info.totalHash then Meta(info, now) else old'.value
  }

  function MetaOf(t: Tracker, f: File): Option<Meta> {
    if f in t.files then Some(t.files[f].meta) else None
  }

  function Announce(t: Tracker, f: File, p: Peer, info: Info, now: Time): Tracker {
    var peers := Sharers(t, f) + {p};
    Tracker(
      t.files[f := Entry(Announced(MetaOf(t, f), info, now), |peers|)],
      t.sharers[f := peers],
      t.seen[p := now])
  }

  function Touch(t: Tracker, p: Peer, now: Time): Tracker {
    t.(seen := t.seen[p := now])
  }

  /** Adds the peer to one file's list, creating the list if need be; metadata is never created here. */
  function Enlist(t: Tracker, f: File, p: Peer): Tracker {
    var peers := Sharers(t, f) + {p};
    t.(sharers := t.sharers[f := peers],
       files := if f in t.files then t.files[f := t.files[f].(numPeers := |peers|)] else t.files)
  }

  function EnlistAll(t: Tracker, fs: seq<File>, p: Peer): Tracker {
    if fs == [] then t else Enlist(EnlistAll(t, fs[..|fs| - 1], p), fs[|fs| - 1], p)
  }

  /** Whether taking the peers in `gone` off the file's list makes the file disappear. */
  predicate Vanishes(t: Tracker, f: File, gone: set<Peer>) {
    f in t.files && f in t.sharers && t.sharers[f] * gone != {} && t.sharers[f] <= gone
  }

  /**
   Takes every peer in `gone` off every list except those of the files in `kept`. A file with
   metadata whose list becomes empty disappears; a list without metadata may stay behind empty.
   */
  function Purge(t: Tracker, gone: set<Peer>, kept: set<File>): Tracker {
    t.(
      sharers := map f | f in t.sharers && (f in kept || !Vanishes(t, f, gone)) ::
        if f in kept then t.sharers[f] else t.sharers[f] - gone,
      files := map f | f in t.files && (f in kept || !Vanishes(t, f, gone)) ::
        if f !in kept && f in t.sharers && t.sharers[f] * gone != {}
        then t.files[f].(numPeers := |t.sharers[f] - gone|) else t.files[f])
  }

  function Heartbeat(t: Tracker, p: Peer, fs: seq<File>, now: Time): Tracker {
    Purge(EnlistAll(Touch(t, p, now), fs, p), {p}, Elements(fs))
  }

  /** Only one file's list; unlike the other removals it recounts even if the peer was not listed. */
  function Remove(t: Tracker, f: File, p: Peer): Tracker {
    if f !in t.sharers then t
    else
      var peers := t.sharers[f] - {p};
      if f !in t.files then t.(sharers := t.sharers[f := peers])
      else if peers == {} then t.(sharers := t.sharers - {f}, files := t.files - {f})
      else t.(sharers := t.sharers[f := peers], files := t.files[f := t.files[f].(numPeers := |peers|)])
  }

  /** Taking away a set of peers: off every list, and their last-seen times. */
  function Forget(t: Tracker, gone: set<Peer>): Tracker {
    var t' := Purge(t, gone, {});
    t'.(seen := t'.seen - gone)
  }

  function RemovePeer(t: Tracker, p: Peer): Tracker {
    Forget(t, {p})
  }

  function Stale(t: Tracker, now: Time): set<Peer> {
    set p | p in t.seen && now - t.seen[p] > INACTIVITY_THRESHOLD
  }

  /** cleanupStalePeers: what GetPeers does before it answers. */
  function ExpireStale(t: Tracker, now: Time): Tracker {
    Forget(t, Stale(t, now))
  }

  function DropEmpty(t: Tracker): Tracker {
    t.(sharers := map f | f in t.sharers && t.sharers[f] != {} :: t.sharers[f])
  }

  /** cleanupInactivePeers: empty lists go too, but only if somebody was inactive. */
  function ExpireInactive(t: Tracker, now: Time): Tracker {
    var t' := ExpireStale(t, now);
    if Stale(t, now) == {} then t' else DropEmpty(t')
  }

  // ---------------------------------------------------------------- invariant

  /**
   A file with metadata has a non-empty list of exactly NumPeers peers, and every listed peer has
   been seen. A list without metadata is allowed, even an empty one: heartbeats create them.
   */
  ghost predicate Inv(t: Tracker) {
    && (forall f | f in t.files :: f in t.sharers && t.sharers[f] != {} && t.files[f].numPeers == |t.sharers[f]|)
    && (forall f, p | f in t.sharers && p in t.sharers[f] :: p in t.seen)
  }

  lemma AnnounceInv(t: Tracker, f: File, p: Peer, info: Info, now: Time)
    requires Inv(t)
    ensures Inv(Announce(t, f, p, info, now))
  {
  }

  lemma {:induction false} EnlistAllInv(t: Tracker, fs: seq<File>, p: Peer)
    requires Inv(t) && p in t.seen
    ensures Inv(EnlistAll(t, fs, p)) && EnlistAll(t, fs, p).seen == t.seen
  {
    if fs != [] {
      EnlistAllInv(t, fs[..|fs| - 1], p);
    }
  }

  /** What a purge does to one file's metadata: it stays, with the right count, or its list is empty. */
  lemma PurgeInvAt(t: Tracker, gone: set<Peer>, kept: set<File>, f: File)
    requires Inv(t) && f in Purge(t, gone, kept).files
    ensures var t' := Purge(t, gone, kept);
            f in t'.sharers && t'.sharers[f] != {} && t'.files[f].numPeers == |t'.sharers[f]|
  {
    NothingTaken(t.sharers[f], gone);
    if f !in kept && !(t.sharers[f] <= gone) {
      var p :| p in t.sharers[f] && p !in gone;
      assert p in t.sharers[f] - gone;
    }
  }

  lemma PurgeInv(t: Tracker, gone: set<Peer>, kept: set<File>)
    requires Inv(t)
    ensures Inv(Purge(t, gone, kept))
  {
    var t' := Purge(t, gone, kept);
    forall f | f in t'.files
      ensures f in t'.sharers && t'.sharers[f] != {} && t'.files[f].numPeers == |t'.sharers[f]|
    {
      PurgeInvAt(t, gone, kept, f);
    }
  }

  lemma HeartbeatInv(t: Tracker, p: Peer, fs: seq<File>, now: Time)
    requires Inv(t)
    ensures Inv(Heartbeat(t, p, fs, now))
  {
    EnlistAllInv(Touch(t, p, now), fs, p);
    PurgeInv(EnlistAll(Touch(t, p, now), fs, p), {p}, Elements(fs));
  }

  lemma RemoveInv(t: Tracker, f: File, p: Peer)
    requires Inv(t)
    ensures Inv(Remove(t, f, p))
  {
  }

  lemma ForgetInv(t: Tracker, gone: set<Peer>)
    requires Inv(t)
    ensures Inv(Forget(t, gone))
  {
    PurgeInv(t, gone, {});
    var t' := Purge(t, gone, {});
    forall f, p | f in t'.sharers && p in t'.sharers[f] ensures p in t'.seen - gone {
      assert p in t.sharers[f] && p !in gone;
    }
  }
}
