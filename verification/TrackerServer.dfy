/**
 The tracker of p2p/tracker.go: three maps and FileInfo records updated in place by nested loops
 over maps in no particular order, each method proved against its function in TrackerSpec. The
 current time is a parameter; each call holds the tracker's lock throughout.
 */
module TrackerServer {
  import opened Common
  import opened TrackerSpec
  import R = TrackerRefinement

  // ---------------------------------------------------------------- one file at a time

  /** The body that every removal loop repeats: take one peer off one file's list. */
  function DropFrom(t: Tracker, f: File, p: Peer): Tracker {
    if f !in t.sharers || p !in t.sharers[f] then t else Remove(t, f, p)
  }

  /** Purging one more file's list is one round of the loop. */
  lemma PurgeRound(t: Tracker, p: Peer, kept: set<File>, f: File)
    requires f !in kept
    ensures Purge(t, {p}, kept) == DropFrom(Purge(t, {p}, kept + {f}), f, p)
  {
    var a, b := Purge(t, {p}, kept), DropFrom(Purge(t, {p}, kept + {f}), f, p);
    forall g ensures R.SameAt(a, b, g) {
      PurgeRoundAt(t, p, kept, f, g);
    }
    R.SameTracker(a, b);
  }

  lemma PurgeRoundAt(t: Tracker, p: Peer, kept: set<File>, f: File, g: File)
    requires f !in kept
    ensures R.SameAt(Purge(t, {p}, kept), DropFrom(Purge(t, {p}, kept + {f}), f, p), g)
  {
    if g == f && f in t.sharers {
      var s := t.sharers[f];
      NothingTaken(s, {p});
      if p in s {
        assert p in s * {p};
      }
    }
  }

  lemma PurgeNothingLeft(t: Tracker, p: Peer, kept: set<File>)
    requires t.sharers.Keys <= kept
    ensures Purge(t, {p}, kept) == t
  {
    assert Purge(t, {p}, kept).sharers == t.sharers;
    assert Purge(t, {p}, kept).files == t.files;
  }

  /** Forgetting one more peer after some others is forgetting them all at once. */
  lemma ForgetOneMore(t: Tracker, gone: set<Peer>, p: Peer)
    requires Inv(t)
    ensures Forget(Forget(t, gone), {p}) == Forget(t, gone + {p})
  {
    R.PurgeTwice(t, gone, {p});
    R.ForgetTimes(Forget(t, gone), Purge(t, gone, {}), {p});
    assert (t.seen - gone) - {p} == t.seen - (gone + {p});
  }

  /** Dropping the empty lists early changes nothing once they are dropped again at the end. */
  lemma DropEmptyEarly(t: Tracker, p: Peer)
    requires Inv(t)
    ensures DropEmpty(Forget(DropEmpty(t), {p})) == DropEmpty(Forget(t, {p}))
  {
    var a, b := DropEmpty(Forget(DropEmpty(t), {p})), DropEmpty(Forget(t, {p}));
    forall f ensures R.SameAt(a, b, f) {
      DropEmptyEarlyAt(t, p, f);
    }
    R.SameTracker(a, b);
  }

  lemma DropEmptyEarlyAt(t: Tracker, p: Peer, f: File)
    requires Inv(t)
    ensures R.SameAt(DropEmpty(Forget(DropEmpty(t), {p})), DropEmpty(Forget(t, {p})), f)
  {
    R.PurgeEffect(t, {p}, {}, f);
  }

  /** The state of the second clean-up routine after some of its rounds. */
  function Expelled(t: Tracker, gone: set<Peer>): Tracker {
    if gone == {} then t else DropEmpty(Forget(t, gone))
  }

  lemma ExpelOneMore(t: Tracker, gone: set<Peer>, p: Peer)
    requires Inv(t)
    ensures DropEmpty(Forget(Expelled(t, gone), {p})) == Expelled(t, gone + {p})
  {
    R.ForgetNobody(t);
    ForgetInv(t, gone);
    ForgetOneMore(t, gone, p);
    DropEmptyEarly(Forget(t, gone), p);
  }

  lemma OneLess<T>(all: set<T>, todo: set<T>, x: T)
    requires x in todo
    ensures all - (todo - {x}) == if x in all then all - todo + {x} else all - todo
  {
  }

  lemma ExpelledIsExpired(t: Tracker, now: Time)
    ensures Expelled(t, Stale(t, now)) == ExpireInactive(t, now)
  {
    R.ForgetNobody(t);
  }

  /** One more round of the heartbeat's first loop. */
  lemma EnlistNext(t: Tracker, fs: seq<File>, k: nat, p: Peer)
    requires k < |fs|
    ensures EnlistAll(t, fs[..k + 1], p) == Enlist(EnlistAll(t, fs[..k], p), fs[k], p)
    ensures Elements(fs[..k + 1]) == Elements(fs[..k]) + {fs[k]}
  {
    assert fs[..k + 1] == fs[..k] + [fs[k]];
    assert fs[..k + 1][..k] == fs[..k];
  }

  function WithMetadata(t: Tracker, f: File, meta: Meta, numPeers: int): Tracker {
    t.(files := t.files[f := Entry(meta, numPeers)])
  }

  /** An announcement refreshes the metadata, joins the list and notes the time. */
  lemma AnnounceInParts(t: Tracker, t': Tracker, f: File, p: Peer, info: Info, now: Time)
    requires f in t'.files
    requires t' == WithMetadata(t, f, Announced(MetaOf(t, f), info, now), t'.files[f].numPeers)
    ensures Touch(Enlist(t', f, p), p, now) == Announce(t, f, p, info, now)
  {
    PutTwice(t.files, f, t'.files[f], t'.files[f].(numPeers := |Sharers(t, f) + {p}|));
  }

  // ---------------------------------------------------------------- the server

  class FileInfo {
    const fileID: File
    const meta: Meta
    var numPeers: int

    constructor (fileID: File, meta: Meta)
      ensures this.fileID == fileID && this.meta == meta && numPeers == 0
    {
      this.fileID, this.meta, numPeers := fileID, meta, 0;
    }

    function View(): Entry
      reads this
    {
      Entry(meta, numPeers)
    }
  }

  datatype RequestError = FileIdRequired | FileNotFound

  class TrackerServer {
    var fileIndex: map<File, FileInfo>
    var peerIndex: map<File, set<Peer>>
    var peerLastSeen: map<Peer, Time>
    ghost var Files: map<File, Entry>    // what the records behind fileIndex hold
    ghost var Repr: set<FileInfo>

    /** Records are filed under their own ID, so no two entries share a record. */
    ghost predicate Linked()
      reads this, Repr
    {
      && Files.Keys == fileIndex.Keys
      && forall f | f in fileIndex ::
           fileIndex[f] in Repr && fileIndex[f].fileID == f && fileIndex[f].View() == Files[f]
    }

    ghost function State(): Tracker
      reads this
    {
      Tracker(Files, peerIndex, peerLastSeen)
    }

    ghost predicate Valid()
      reads this, Repr
    {
      Linked() && Inv(State())
    }

    constructor ()
      ensures Valid() && fresh(Repr) && State() == EMPTY
    {
      fileIndex, peerIndex, peerLastSeen, Files, Repr := map[], map[], map[], map[], {};
    }

    /** Stores a new record, replacing any old one. */
    method PutFile(f: File, meta: Meta)
      requires Linked()
      modifies this`fileIndex, this`Files, this`Repr
      ensures Linked() && fresh(Repr - old(Repr))
      ensures Files == old(Files)[f := Entry(meta, 0)]
    {
      var record := new FileInfo(f, meta);
      fileIndex := fileIndex[f := record];
      Files := Files[f := Entry(meta, 0)];
      Repr := Repr + {record};
    }

    method SetCount(f: File, count: int)
      requires Linked() && f in fileIndex
      modifies this`Files, Repr
      ensures Linked()
      ensures Files == old(Files)[f := old(Files)[f].(numPeers := count)]
    {
      fileIndex[f].numPeers := count;
      Files := Files[f := Files[f].(numPeers := count)];
    }

    method DeleteFile(f: File)
      requires Linked()
      modifies this`fileIndex, this`Files
      ensures Linked()
      ensures Files == old(Files) - {f}
    {
      fileIndex := fileIndex - {f};
      Files := Files - {f};
    }

    /** The first part of an announcement: metadata that is new or has a new total hash. */
    method RefreshMetadata(f: File, info: Info, now: Time)
      requires Linked()
      modifies this`fileIndex, this`Files, this`Repr
      ensures Linked() && fresh(Repr - old(Repr)) && f in Files
      ensures State() == WithMetadata(old(State()), f, Announced(MetaOf(old(State()), f), info, now), Files[f].numPeers)
    {
      if f !in fileIndex || fileIndex[f].meta.info.totalHash != info.totalHash {
        PutFile(f, Meta(info, now));
      } else {
        PutSame(Files, f);
      }
    }

    method HandleAnnounce(f: File, p: Peer, info: Info, now: Time)
      requires Valid()
      modifies this, Repr
      ensures Valid() && fresh(Repr - old(Repr))
      ensures State() == Announce(old(State()), f, p, info, now)
    {
      AnnounceInv(State(), f, p, info, now);
      Record(f, p, info, now);
    }

    method Record(f: File, p: Peer, info: Info, now: Time)
      requires Linked()
      modifies this, Repr
      ensures Linked() && fresh(Repr - old(Repr))
      ensures State() == Announce(old(State()), f, p, info, now)
    {
      ghost var t := State();
      RefreshMetadata(f, info, now);
      AnnounceInParts(t, State(), f, p, info, now);
      AddToList(f, p);
      SetSeen(p, now);
    }

    method SetSeen(p: Peer, now: Time)
      requires Linked()
      modifies this`peerLastSeen
      ensures Linked() && State() == Touch(old(State()), p, now)
    {
      peerLastSeen := peerLastSeen[p := now];
    }

    method UpdatePeerActivity(p: Peer, now: Time)
      requires Valid()
      modifies this
      ensures Valid() && Repr == old(Repr)
      ensures State() == Touch(old(State()), p, now)
    {
      peerLastSeen := peerLastSeen[p := now];
    }

    /** Takes the peer off a list that exists; a file with metadata goes when its list is empty. */
    method TakeOff(f: File, p: Peer)
      requires Linked() && f in peerIndex
      modifies this`fileIndex, this`Files, this`peerIndex, Repr
      ensures Linked() && State() == Remove(old(State()), f, p)
    {
      ghost var t := State();
      peerIndex := peerIndex[f := peerIndex[f] - {p}];
      if f in fileIndex {
        SetCount(f, |peerIndex[f]|);
        if fileIndex[f].numPeers == 0 {
          PutThenDrop(t.files, f, Files[f]);
          PutThenDrop(t.sharers, f, peerIndex[f]);
          assert t.sharers[f] - {p} == {};
          DeleteFile(f);
          peerIndex := peerIndex - {f};
          assert Files == t.files - {f} && peerIndex == t.sharers - {f};
        }
      }
    }

    /** One round of a removal loop. */
    method DropPeerFrom(f: File, p: Peer)
      requires Linked() && f in peerIndex
      modifies this`fileIndex, this`Files, this`peerIndex, Repr
      ensures Linked() && State() == DropFrom(old(State()), f, p)
    {
      if p in peerIndex[f] {
        TakeOff(f, p);
      }
    }

    /** The loop over all lists, skipping those of the files the peer still shares. */
    method DropPeerFromAll(p: Peer, kept: set<File>)
      requires Linked()
      modifies this`fileIndex, this`Files, this`peerIndex, Repr
      ensures Linked() && State() == Purge(old(State()), {p}, kept)
    {
      ghost var t := State();
      var todo := peerIndex.Keys;
      PurgeNothingLeft(t, p, kept + todo);
      while todo != {}
        invariant todo <= peerIndex.Keys
        invariant Linked() && State() == Purge(t, {p}, kept + todo)
        decreases |todo|
      {
        ghost var before := kept + todo;
        var f :| f in todo;
        todo := todo - {f};
        if f !in kept {
          PurgeRound(t, p, kept + todo, f);
          assert kept + todo + {f} == before;
          DropPeerFrom(f, p);
        } else {
          assert kept + todo == before;
        }
      }
      assert kept + todo == kept;
    }

    method HandleHeartbeat(p: Peer, fileIDs: seq<File>, now: Time)
      requires Valid()
      modifies this, Repr
      ensures Valid() && Repr == old(Repr)
      ensures State() == Heartbeat(old(State()), p, fileIDs, now)
    {
      ghost var t := State();
      HeartbeatInv(t, p, fileIDs, now);
      SetSeen(p, now);
      ghost var touched := Touch(t, p, now);
      var currentlySharing: set<File> := {};
      var k := 0;
      while k < |fileIDs|
        invariant k <= |fileIDs| && Repr == old(Repr)
        invariant currentlySharing == Elements(fileIDs[..k])
        invariant Linked() && State() == EnlistAll(touched, fileIDs[..k], p)
      {
        var f := fileIDs[k];
        EnlistNext(touched, fileIDs, k, p);
        currentlySharing := currentlySharing + {f};
        AddToList(f, p);
        k := k + 1;
      }
      assert fileIDs[..k] == fileIDs;
      DropPeerFromAll(p, currentlySharing);
    }

    /** One round of the heartbeat's first loop. */
    method AddToList(f: File, p: Peer)
      requires Linked()
      modifies this`peerIndex, this`Files, Repr
      ensures Linked() && State() == Enlist(old(State()), f, p)
    {
      ghost var t := State();
      if f !in peerIndex {
        peerIndex := peerIndex[f := {}];
      }
      peerIndex := peerIndex[f := peerIndex[f] + {p}];
      PutTwice(t.sharers, f, {}, Sharers(t, f) + {p});
      assert peerIndex == t.sharers[f := Sharers(t, f) + {p}];
      if f in fileIndex {
        SetCount(f, |peerIndex[f]|);
      }
    }

    method HandleRemove(f: File, p: Peer)
      requires Valid()
      modifies this, Repr
      ensures Valid() && Repr == old(Repr)
      ensures State() == Remove(old(State()), f, p)
    {
      RemoveInv(State(), f, p);
      if f in peerIndex {
        TakeOff(f, p);
      }
    }

    /** Takes the peer off every list and forgets when it was seen. */
    method ForgetPeer(p: Peer)
      requires Linked()
      modifies this`fileIndex, this`Files, this`peerIndex, this`peerLastSeen, Repr
      ensures Linked() && State() == Forget(old(State()), {p})
    {
      DropPeerFromAll(p, {});
      peerLastSeen := peerLastSeen - {p};
    }

    method RemovePeer(p: Peer)
      requires Valid()
      modifies this, Repr
      ensures Valid() && Repr == old(Repr)
      ensures State() == TrackerSpec.RemovePeer(old(State()), p)
    {
      ForgetInv(State(), {p});
      ForgetPeer(p);
    }

    /** One round of the expiry loop, when the peers in `gone` have been forgotten already. */
    method ExpireIfStale(p: Peer, now: Time, ghost t: Tracker, ghost gone: set<Peer>) returns (ghost gone': set<Peer>)
      requires Linked() && p in peerLastSeen
      requires Inv(t) && State() == Forget(t, gone)
      modifies this`fileIndex, this`Files, this`peerIndex, this`peerLastSeen, Repr
      ensures Linked() && State() == Forget(t, gone')
      ensures gone' == if p in Stale(t, now) then gone + {p} else gone
      ensures old(peerLastSeen.Keys) - {p} <= peerLastSeen.Keys
    {
      gone' := gone;
      if peerLastSeen[p] < now - INACTIVITY_THRESHOLD {
        ForgetOneMore(t, gone, p);
        ForgetPeer(p);
        gone' := gone + {p};
      }
    }

    method CleanupStalePeers(now: Time)
      requires Valid()
      modifies this, Repr
      ensures Valid() && Repr == old(Repr)
      ensures State() == ExpireStale(old(State()), now)
    {
      ForgetInv(State(), Stale(State(), now));
      ExpireAll(now, State());
    }

    /** The loop over the last-seen times, in whatever order the map gives them. */
    method ExpireAll(now: Time, ghost t: Tracker)
      requires Linked() && Inv(t) && State() == t
      modifies this`fileIndex, this`Files, this`peerIndex, this`peerLastSeen, Repr
      ensures Linked() && State() == Forget(t, Stale(t, now))
    {
      ghost var gone: set<Peer> := {};
      R.ForgetNobody(t);
      var todo := peerLastSeen.Keys;
      while todo != {}
        invariant todo <= peerLastSeen.Keys
        invariant gone == Stale(t, now) - todo
        invariant Linked() && State() == Forget(t, gone)
        decreases |todo|
      {
        var p :| p in todo;
        gone := ExpireIfStale(p, now, t, gone);
        OneLess(Stale(t, now), todo, p);
        todo := todo - {p};
      }
      assert gone == Stale(t, now);
    }

    /** Lists that have become empty are deleted. */
    method DeleteEmptyLists()
      requires Linked()
      modifies this`peerIndex
      ensures Linked() && State() == DropEmpty(old(State()))
    {
      ghost var lists := peerIndex;
      var todo := peerIndex.Keys;
      while todo != {}
        invariant todo <= lists.Keys
        invariant peerIndex == map f | f in lists && (f in todo || lists[f] != {}) :: lists[f]
        decreases |todo|
      {
        var f :| f in todo;
        todo := todo - {f};
        if |peerIndex[f]| == 0 {
          peerIndex := peerIndex - {f};
        }
      }
    }

    method CleanupInactivePeers(now: Time)
      requires Valid()
      modifies this, Repr
      ensures Valid() && Repr == old(Repr)
      ensures State() == ExpireInactive(old(State()), now)
    {
      ghost var t := State();
      R.InactiveInv(t, now);
      var removedPeers := InactivePeers(now);
      var k := 0;
      while k < |removedPeers|
        invariant k <= |removedPeers| && Repr == old(Repr)
        invariant Linked() && State() == Expelled(t, Elements(removedPeers[..k]))
      {
        assert removedPeers[..k + 1] == removedPeers[..k] + [removedPeers[k]];
        assert Elements(removedPeers[..k + 1]) == Elements(removedPeers[..k]) + {removedPeers[k]};
        Expel(removedPeers[k], t, Elements(removedPeers[..k]));
        k := k + 1;
      }
      assert removedPeers[..k] == removedPeers;
      ExpelledIsExpired(t, now);
    }

    /** One round of the clean-up, when the peers in `gone` have been expelled already. */
    method Expel(p: Peer, ghost t: Tracker, ghost gone: set<Peer>)
      requires Linked() && Inv(t) && State() == Expelled(t, gone)
      modifies this`fileIndex, this`Files, this`peerIndex, this`peerLastSeen, Repr
      ensures Linked() && State() == Expelled(t, gone + {p})
    {
      ExpelOneMore(t, gone, p);
      ForgetPeer(p);
      DeleteEmptyLists();
    }

    method InactivePeers(now: Time) returns (removedPeers: seq<Peer>)
      requires Linked()
      ensures Elements(removedPeers) == Stale(State(), now)
    {
      removedPeers := [];
      var todo := peerLastSeen.Keys;
      while todo != {}
        invariant todo <= peerLastSeen.Keys
        invariant Elements(removedPeers) == Stale(State(), now) - todo
        decreases |todo|
      {
        var p :| p in todo;
        todo := todo - {p};
        if now - peerLastSeen[p] > INACTIVITY_THRESHOLD {
          assert Elements(removedPeers + [p]) == Elements(removedPeers) + {p};
          removedPeers := removedPeers + [p];
        }
      }
    }

    /** Expires stale peers, then lists the file's remaining peers without repeats, in some order. */
    method HandleGetPeers(f: File, now: Time) returns (r: Result<seq<Peer>, RequestError>)
      requires Valid()
      modifies this, Repr
      ensures Valid() && Repr == old(Repr)
      ensures r.Err? <==> f == ""
      ensures State() == if f == "" then old(State()) else ExpireStale(old(State()), now)
      ensures r.Ok? ==> Distinct(r.value) && Elements(r.value) == Sharers(ExpireStale(old(State()), now), f)
    {
      if f == "" {
        return Err(FileIdRequired);
      }
      CleanupStalePeers(now);
      if f !in peerIndex || |peerIndex[f]| == 0 {
        return Ok([]);
      }
      var peerList := PeerList(f);
      return Ok(peerList);
    }

    method PeerList(f: File) returns (peerList: seq<Peer>)
      requires f in peerIndex
      ensures Distinct(peerList) && Elements(peerList) == peerIndex[f]
    {
      peerList := [];
      var todo := peerIndex[f];
      while todo != {}
        invariant todo <= peerIndex[f]
        invariant Distinct(peerList) && Elements(peerList) == peerIndex[f] - todo
        decreases |todo|
      {
        var p :| p in todo;
        assert p !in Elements(peerList);
        assert Elements(peerList + [p]) == Elements(peerList) + {p};
        peerList := peerList + [p];
        todo := todo - {p};
      }
    }

    /** Served metadata never counts zero peers, so a downloader's check for that never fires. */
    method HandleGetMetadata(f: File) returns (r: Result<Entry, RequestError>)
      requires Valid()
      ensures r == if f == "" then Err(FileIdRequired)
                   else if f in State().files then Ok(State().files[f]) else Err(FileNotFound)
      ensures r.Ok? ==> r.value.numPeers == |Sharers(State(), f)| > 0
    {
      if f == "" {
        return Err(FileIdRequired);
      }
      if f !in fileIndex {
        return Err(FileNotFound);
      }
      assert f in State().files && f in State().sharers;
      return Ok(fileIndex[f].View());
    }
  }
}
