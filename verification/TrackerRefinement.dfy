/** The tracker's maps implement a relation between files and peers with metadata for shared files. */
module TrackerRefinement {
  import opened Common
  import opened TrackerSpec

  datatype Abstract = Abstract(shares: set<(File, Peer)>, meta: map<File, Meta>, seen: map<Peer, Time>)

  /** Cached counts and empty lists are implementation detail. */
  ghost function Alpha(t: Tracker): Abstract {
    Abstract(
      set f, p | f in t.sharers && p in t.sharers[f] :: (f, p),
      MetasOf(t.files),
      t.seen)
  }

  // ---------------------------------------------------------------- the abstract tracker

  ghost predicate Shared(shares: set<(File, Peer)>, f: File) {
    exists p :: (f, p) in shares
  }

  /** Metadata lives exactly as long as somebody shares the file. */
  ghost function Sweep(a: Abstract): Abstract {
    a.(meta := map f | f in a.meta && Shared(a.shares, f) :: a.meta[f])
  }

  ghost function AbstractAnnounce(a: Abstract, f: File, p: Peer, info: Info, now: Time): Abstract {
    var known := if f in a.meta then Some(a.meta[f]) else None;
    Abstract(a.shares + {(f, p)}, a.meta[f := Announced(known, info, now)], a.seen[p := now])
  }

  ghost function AbstractHeartbeat(a: Abstract, p: Peer, fs: set<File>, now: Time): Abstract {
    var others := set r | r in a.shares && r.1 != p;
    Sweep(Abstract(others + (set f | f in fs :: (f, p)), a.meta, a.seen[p := now]))
  }

  ghost function AbstractRemove(a: Abstract, f: File, p: Peer): Abstract {
    Sweep(a.(shares := a.shares - {(f, p)}))
  }

  ghost function AbstractForget(a: Abstract, gone: set<Peer>): Abstract {
    Sweep(a.(shares := (set r | r in a.shares && r.1 !in gone), seen := a.seen - gone))
  }

  ghost function AbstractExpire(a: Abstract, now: Time): Abstract {
    AbstractForget(a, set p | p in a.seen && now - a.seen[p] > 120)
  }

  // ---------------------------------------------------------------- simulation

  lemma SharesAre(t: Tracker, f: File, p: Peer)
    ensures (f, p) in Alpha(t).shares <==> p in Sharers(t, f)
  {
  }

  lemma SharedMeans(t: Tracker, f: File)
    ensures Shared(Alpha(t).shares, f) <==> Sharers(t, f) != {}
  {
    if Sharers(t, f) != {} {
      var p :| p in Sharers(t, f);
      SharesAre(t, f, p);
    }
    if Shared(Alpha(t).shares, f) {
      var p :| (f, p) in Alpha(t).shares;
      SharesAre(t, f, p);
    }
  }

  /** Two abstract trackers with the same pairs, metadata and times are equal. */
  lemma SameAbstract(a: Abstract, b: Abstract)
    requires forall f, p :: (f, p) in a.shares <==> (f, p) in b.shares
    requires a.meta == b.meta && a.seen == b.seen
    ensures a == b
  {
    forall r ensures r in a.shares <==> r in b.shares {
      assert r == (r.0, r.1);
    }
  }

  lemma AnnounceSimulates(t: Tracker, f: File, p: Peer, info: Info, now: Time)
    requires Inv(t)
    ensures Alpha(Announce(t, f, p, info, now)) == AbstractAnnounce(Alpha(t), f, p, info, now)
  {
    var t' := Announce(t, f, p, info, now);
    var a' := AbstractAnnounce(Alpha(t), f, p, info, now);
    forall g, q ensures (g, q) in Alpha(t').shares <==> (g, q) in a'.shares {
      SharesAre(t, g, q);
      SharesAre(t', g, q);
    }
    AnnounceMeta(t, f, p, info, now);
    SameAbstract(Alpha(t'), a');
  }

  /** The metadata behind an index of entries. */
  function MetasOf(files: map<File, Entry>): map<File, Meta> {
    map f | f in files :: files[f].meta
  }

  lemma MetasPut(files: map<File, Entry>, f: File, e: Entry)
    ensures MetasOf(files[f := e]) == MetasOf(files)[f := e.meta]
  {
  }

  lemma AnnounceMeta(t: Tracker, f: File, p: Peer, info: Info, now: Time)
    ensures Alpha(Announce(t, f, p, info, now)).meta == AbstractAnnounce(Alpha(t), f, p, info, now).meta
  {
    MetasPut(t.files, f, Announce(t, f, p, info, now).files[f]);
  }

  /** Which lists and which metadata are left after a purge. */
  lemma PurgeEffect(t: Tracker, gone: set<Peer>, kept: set<File>, f: File)
    requires Inv(t)
    ensures var t' := Purge(t, gone, kept);
            && Sharers(t', f) == (if f in kept then Sharers(t, f) else Sharers(t, f) - gone)
            && (f in t'.files <==> f in t.files && Sharers(t', f) != {})
            && (f in t'.files ==> t'.files[f].meta == t.files[f].meta)
  {
    NothingTaken(Sharers(t, f), gone);
    var t' := Purge(t, gone, kept);
    if f in t.sharers && f !in kept {
      if t.sharers[f] <= gone {
        assert t.sharers[f] - gone == {};
      } else {
        var p :| p in t.sharers[f] && p !in gone;
        assert p in t.sharers[f] - gone;
        assert t'.sharers[f] == t.sharers[f] - gone;
      }
    }
  }

  lemma ForgetSimulates(t: Tracker, gone: set<Peer>)
    requires Inv(t)
    ensures Alpha(Forget(t, gone)) == AbstractForget(Alpha(t), gone)
  {
    var t' := Forget(t, gone);
    var a' := AbstractForget(Alpha(t), gone);
    forall g, q ensures (g, q) in Alpha(t').shares <==> (g, q) in a'.shares {
      PurgeEffect(t, gone, {}, g);
      SharesAre(t, g, q);
      SharesAre(t', g, q);
    }
    forall g ensures g in t'.files <==> g in t.files && Sharers(t', g) != {}
             ensures g in t'.files ==> t'.files[g].meta == t.files[g].meta
    {
      PurgeEffect(t, gone, {}, g);
    }
    SweptMeta(t, t', a'.shares);
    SameAbstract(Alpha(t'), a');
  }

  /** If metadata survives exactly where sharers do, the abstract metadata is the swept one. */
  lemma SweptMeta(t: Tracker, t': Tracker, shares: set<(File, Peer)>)
    requires forall f, p :: (f, p) in Alpha(t').shares <==> (f, p) in shares
    requires forall f :: f in t'.files <==> f in t.files && Sharers(t', f) != {}
    requires forall f | f in t'.files :: t'.files[f].meta == t.files[f].meta
    ensures Alpha(t').meta == Sweep(Alpha(t).(shares := shares)).meta
  {
    forall f ensures Shared(shares, f) <==> Sharers(t', f) != {} {
      SharedMeans(t', f);
      assert Shared(shares, f) <==> Shared(Alpha(t').shares, f);
    }
  }

  lemma RemoveEffect(t: Tracker, f: File, p: Peer, g: File)
    requires Inv(t)
    ensures var t' := Remove(t, f, p);
            && Sharers(t', g) == (if g == f then Sharers(t, g) - {p} else Sharers(t, g))
            && (g in t'.files <==> g in t.files && Sharers(t', g) != {})
            && (g in t'.files ==> t'.files[g].meta == t.files[g].meta)
            && t'.seen == t.seen
  {
  }

  lemma RemoveSimulates(t: Tracker, f: File, p: Peer)
    requires Inv(t)
    ensures Alpha(Remove(t, f, p)) == AbstractRemove(Alpha(t), f, p)
  {
    var t' := Remove(t, f, p);
    var a' := AbstractRemove(Alpha(t), f, p);
    forall g, q ensures (g, q) in Alpha(t').shares <==> (g, q) in a'.shares {
      RemoveEffect(t, f, p, g);
      SharesAre(t, g, q);
      SharesAre(t', g, q);
    }
    forall g ensures g in t'.files <==> g in t.files && Sharers(t', g) != {}
             ensures g in t'.files ==> t'.files[g].meta == t.files[g].meta
    {
      RemoveEffect(t, f, p, g);
    }
    SweptMeta(t, t', a'.shares);
    RemoveEffect(t, f, p, f);
    SameAbstract(Alpha(t'), a');
  }

  /** What enlisting does: one peer joins the named lists; metadata keeps its files and contents. */
  lemma {:induction false} EnlistAllEffect(t: Tracker, fs: seq<File>, p: Peer, f: File)
    ensures var t' := EnlistAll(t, fs, p);
            && Sharers(t', f) == (if f in fs then Sharers(t, f) + {p} else Sharers(t, f))
            && (f in t'.sharers <==> f in t.sharers || f in fs)
            && (f in t'.files <==> f in t.files)
            && (f in t'.files ==> t'.files[f].meta == t.files[f].meta)
            && t'.seen == t.seen
  {
    if fs != [] {
      EnlistAllEffect(t, fs[..|fs| - 1], p, f);
      assert fs == fs[..|fs| - 1] + [fs[|fs| - 1]];
    }
  }

  /**
   After a heartbeat the peer is listed for exactly the files it named, repeats or not; every other
   peer is listed where it was; and exactly the old files that still have a sharer keep their metadata.
   */
  lemma HeartbeatExact(t: Tracker, p: Peer, fs: seq<File>, now: Time, f: File)
    requires Inv(t)
    ensures var t' := Heartbeat(t, p, fs, now);
            && (p in Sharers(t', f) <==> f in fs)
            && (forall q | q != p :: q in Sharers(t', f) <==> q in Sharers(t, f))
            && (f in t'.files <==> f in t.files && Sharers(t', f) != {})
            && (f in t'.files ==> t'.files[f].meta == t.files[f].meta && t'.files[f].numPeers == |Sharers(t', f)|)
            && t'.seen == t.seen[p := now]
  {
    var touched := Touch(t, p, now);
    EnlistAllEffect(touched, fs, p, f);
    EnlistAllInv(touched, fs, p);
    PurgeEffect(EnlistAll(touched, fs, p), {p}, Elements(fs), f);
    HeartbeatInv(t, p, fs, now);
  }

  lemma HeartbeatSimulates(t: Tracker, p: Peer, fs: seq<File>, now: Time)
    requires Inv(t)
    ensures Alpha(Heartbeat(t, p, fs, now)) == AbstractHeartbeat(Alpha(t), p, Elements(fs), now)
  {
    var t' := Heartbeat(t, p, fs, now);
    var a' := AbstractHeartbeat(Alpha(t), p, Elements(fs), now);
    forall g, q ensures (g, q) in Alpha(t').shares <==> (g, q) in a'.shares {
      HeartbeatExact(t, p, fs, now, g);
      SharesAre(t, g, q);
      SharesAre(t', g, q);
    }
    forall g ensures g in t'.files <==> g in t.files && Sharers(t', g) != {}
             ensures g in t'.files ==> t'.files[g].meta == t.files[g].meta
    {
      HeartbeatExact(t, p, fs, now, g);
    }
    SweptMeta(t, t', a'.shares);
    HeartbeatExact(t, p, fs, now, "");
    SameAbstract(Alpha(t'), a');
  }

  lemma RemovePeerSimulates(t: Tracker, p: Peer)
    requires Inv(t)
    ensures Alpha(RemovePeer(t, p)) == AbstractForget(Alpha(t), {p})
  {
    ForgetSimulates(t, {p});
  }

  lemma ExpireSimulates(t: Tracker, now: Time)
    requires Inv(t)
    ensures Alpha(ExpireStale(t, now)) == AbstractExpire(Alpha(t), now)
    ensures Alpha(ExpireInactive(t, now)) == AbstractExpire(Alpha(t), now)
  {
    assert Stale(t, now) == set p | p in Alpha(t).seen && now - Alpha(t).seen[p] > 120;
    ForgetSimulates(t, Stale(t, now));
    var t' := ExpireStale(t, now);
    forall f, p ensures (f, p) in Alpha(DropEmpty(t')).shares <==> (f, p) in Alpha(t').shares {
      SharesAre(t', f, p);
      SharesAre(DropEmpty(t'), f, p);
    }
    SameAbstract(Alpha(DropEmpty(t')), Alpha(t'));
  }

  // ---------------------------------------------------------------- expiry

  /** Equal but for lists that are empty. */
  ghost predicate SameUpToEmpty(a: Tracker, b: Tracker) {
    a.files == b.files && a.seen == b.seen && forall f :: Sharers(a, f) == Sharers(b, f)
  }

  /** The two expiry routines agree on everything but empty lists. */
  lemma ExpiriesAgree(t: Tracker, now: Time)
    ensures SameUpToEmpty(ExpireStale(t, now), ExpireInactive(t, now))
  {
  }

  /** Purging in two goes, in either order, is purging once: map iteration order cannot matter. */
  lemma PurgeTwice(t: Tracker, first: set<Peer>, second: set<Peer>)
    requires Inv(t)
    ensures Purge(Purge(t, first, {}), second, {}) == Purge(t, first + second, {})
  {
    var a, b := Purge(Purge(t, first, {}), second, {}), Purge(t, first + second, {});
    forall f ensures SameAt(a, b, f) {
      PurgeTwiceAt(t, first, second, f);
    }
    SameTracker(a, b);
  }

  ghost predicate SameAt(a: Tracker, b: Tracker, f: File) {
    && (f in a.sharers <==> f in b.sharers)
    && (f in a.sharers ==> a.sharers[f] == b.sharers[f])
    && (f in a.files <==> f in b.files)
    && (f in a.files ==> a.files[f] == b.files[f])
  }

  lemma SameTracker(a: Tracker, b: Tracker)
    requires a.seen == b.seen && forall f :: SameAt(a, b, f)
    ensures a == b
  {
    forall f ensures f in a.files <==> f in b.files ensures f in a.sharers <==> f in b.sharers {
      assert SameAt(a, b, f);
    }
    assert forall f | f in a.files :: SameAt(a, b, f);
    assert forall f | f in a.sharers :: SameAt(a, b, f);
    assert a.files == b.files;
    assert a.sharers == b.sharers;
  }

  lemma PurgeTwiceAt(t: Tracker, first: set<Peer>, second: set<Peer>, f: File)
    requires Inv(t)
    ensures SameAt(Purge(Purge(t, first, {}), second, {}), Purge(t, first + second, {}), f)
  {
    if f in t.sharers {
      var s := t.sharers[f];
      assert s - first - second == s - (first + second);
      assert s * (first + second) == s * first + s * second;
      NothingTaken(s, first);
      NothingTaken(s - first, second);
      NothingTaken(s, first + second);
    }
  }

  /** Two expiries with nothing in between are one expiry at the later time. */
  lemma ExpireStaleTwice(t: Tracker, t1: Time, t2: Time)
    requires Inv(t) && t1 <= t2
    ensures ExpireStale(ExpireStale(t, t1), t2) == ExpireStale(t, t2)
  {
    var first, once := Stale(t, t1), ExpireStale(t, t1);
    var second := Stale(once, t2);
    StaleTwice(t, once, first, second, t1, t2);
    PurgeTwice(t, first, second);
    ForgetTimes(once, Purge(t, first, {}), second);
  }

  lemma StaleTwice(t: Tracker, once: Tracker, first: set<Peer>, second: set<Peer>, t1: Time, t2: Time)
    requires t1 <= t2 && first == Stale(t, t1) && once.seen == t.seen - first && second == Stale(once, t2)
    ensures first + second == Stale(t, t2)
    ensures once.seen - second == t.seen - Stale(t, t2)
  {
  }

  /** A purge does not look at the last-seen times. */
  lemma ForgetTimes(a: Tracker, b: Tracker, gone: set<Peer>)
    requires a.files == b.files && a.sharers == b.sharers
    ensures Purge(a, gone, {}).files == Purge(b, gone, {}).files
    ensures Purge(a, gone, {}).sharers == Purge(b, gone, {}).sharers
  {
  }

  /** Nor, up to empty lists, at the empty lists. */
  lemma PurgeIgnoresEmpty(a: Tracker, b: Tracker, gone: set<Peer>)
    requires Inv(a) && Inv(b) && SameUpToEmpty(a, b)
    ensures SameUpToEmpty(Purge(a, gone, {}), Purge(b, gone, {}))
  {
    var a', b' := Purge(a, gone, {}), Purge(b, gone, {});
    forall f ensures SameUpToEmptyAt(a', b', f) {
      PurgeIgnoresEmptyAt(a, b, gone, f);
    }
    SameFiles(a', b');
  }

  ghost predicate SameUpToEmptyAt(a: Tracker, b: Tracker, f: File) {
    && Sharers(a, f) == Sharers(b, f)
    && (f in a.files <==> f in b.files)
    && (f in a.files ==> a.files[f] == b.files[f])
  }

  lemma SameFiles(a: Tracker, b: Tracker)
    requires forall f :: SameUpToEmptyAt(a, b, f)
    ensures a.files == b.files && forall f :: Sharers(a, f) == Sharers(b, f)
  {
    forall f ensures f in a.files <==> f in b.files ensures Sharers(a, f) == Sharers(b, f) {
      assert SameUpToEmptyAt(a, b, f);
    }
    forall f | f in a.files ensures a.files[f] == b.files[f] {
      assert SameUpToEmptyAt(a, b, f);
    }
  }

  lemma PurgeIgnoresEmptyAt(a: Tracker, b: Tracker, gone: set<Peer>, f: File)
    requires Inv(a) && Inv(b) && SameUpToEmpty(a, b)
    ensures SameUpToEmptyAt(Purge(a, gone, {}), Purge(b, gone, {}), f)
  {
    assert Sharers(a, f) == Sharers(b, f);
    PurgeEffect(a, gone, {}, f);
    PurgeEffect(b, gone, {}, f);
  }

  lemma InactiveInv(t: Tracker, now: Time)
    requires Inv(t)
    ensures Inv(ExpireStale(t, now)) && Inv(ExpireInactive(t, now))
  {
    ForgetInv(t, Stale(t, now));
  }

  /** The same for the other routine, up to empty lists. */
  lemma ExpireInactiveTwice(t: Tracker, t1: Time, t2: Time)
    requires Inv(t) && t1 <= t2
    ensures SameUpToEmpty(ExpireInactive(ExpireInactive(t, t1), t2), ExpireInactive(t, t2))
  {
    var a, b := ExpireInactive(t, t1), ExpireStale(t, t1);
    InactiveInv(t, t1);
    ExpiriesAgree(t, t1);
    ExpireIgnoresEmpty(a, b, t2);
    ExpireStaleTwice(t, t1, t2);
    ExpiriesAgree(a, t2);
    ExpiriesAgree(t, t2);
  }

  lemma ExpireIgnoresEmpty(a: Tracker, b: Tracker, now: Time)
    requires Inv(a) && Inv(b) && SameUpToEmpty(a, b)
    ensures SameUpToEmpty(ExpireStale(a, now), ExpireStale(b, now))
  {
    PurgeIgnoresEmpty(a, b, Stale(b, now));
    assert Stale(a, now) == Stale(b, now);
    SharersOnly(ExpireStale(a, now), Purge(a, Stale(b, now), {}));
    SharersOnly(ExpireStale(b, now), Purge(b, Stale(b, now), {}));
  }

  lemma SharersOnly(a: Tracker, b: Tracker)
    requires a.sharers == b.sharers
    ensures forall f :: Sharers(a, f) == Sharers(b, f)
  {
  }

  // ---------------------------------------------------------------- which lists are left

  /** A removal deletes a list together with the file's metadata, and leaves every other list behind, even empty. */
  lemma PurgeLists(t: Tracker, gone: set<Peer>, kept: set<File>, f: File)
    requires Inv(t)
    ensures var t' := Purge(t, gone, kept);
            f in t'.sharers <==> f in t.sharers && (f in t.files ==> f in t'.files)
  {
  }

  lemma RemoveLists(t: Tracker, f: File, p: Peer, g: File)
    requires Inv(t)
    ensures var t' := Remove(t, f, p);
            g in t'.sharers <==> g in t.sharers && (g in t.files ==> g in t'.files)
  {
  }

  /** A heartbeat creates the lists it names and otherwise deletes only together with metadata. */
  lemma HeartbeatLists(t: Tracker, p: Peer, fs: seq<File>, now: Time, f: File)
    requires Inv(t)
    ensures var t' := Heartbeat(t, p, fs, now);
            f in t'.sharers <==> f in fs || (f in t.sharers && (f in t.files ==> f in t'.files))
  {
    var touched := Touch(t, p, now);
    EnlistAllEffect(touched, fs, p, f);
    EnlistAllInv(touched, fs, p);
    PurgeLists(EnlistAll(touched, fs, p), {p}, Elements(fs), f);
    PurgeEffect(EnlistAll(touched, fs, p), {p}, Elements(fs), f);
  }

  /** The clean-up does nothing as long as nobody is inactive; otherwise no list that is left is empty. */
  lemma InactiveLists(t: Tracker, now: Time, f: File)
    requires Inv(t)
    ensures (forall p | p in t.seen :: now - t.seen[p] <= 120) ==> ExpireInactive(t, now) == t
    ensures (exists p :: p in t.seen && now - t.seen[p] > 120) ==>
              (f in ExpireInactive(t, now).sharers <==> Sharers(ExpireStale(t, now), f) != {})
  {
    if p :| p in t.seen && now - t.seen[p] > 120 {
      assert p in Stale(t, now);
    } else {
      assert Stale(t, now) == {};
      ForgetNobody(t);
    }
  }

  lemma ForgetNobody(t: Tracker)
    ensures Forget(t, {}) == t
  {
    forall f | f in t.sharers ensures t.sharers[f] - {} == t.sharers[f] && t.sharers[f] * {} == {} {
    }
    assert Forget(t, {}).sharers == t.sharers;
    assert Forget(t, {}).files == t.files;
    assert Forget(t, {}).seen == t.seen;
  }

  /**
   Asking for peers at some time gives exactly those listed before whose last activity of any kind
   is at most the threshold ago.
   */
  lemma FreshExactly(t: Tracker, f: File, now: Time, p: Peer)
    requires Inv(t)
    ensures p in Sharers(ExpireStale(t, now), f)
            <==> p in Sharers(t, f) && p in t.seen && now - t.seen[p] <= 120
  {
    PurgeEffect(t, Stale(t, now), {}, f);
  }
}
