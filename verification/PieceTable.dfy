/** The pieces of a download as values: what the operations of piece_manager.go compute. */
module PieceTable {
  import opened Common

  type Peer = string

  datatype Status = Missing | Requested | Received | Verified

  datatype Piece = Piece(index: nat, hash: string, status: Status, peers: set<Peer>, priority: int)

  type Table = map<nat, Piece>

  function Mark(t: Table, i: int, status: Status): Table {
    if i >= 0 && i in t then t[i := t[i].(status := status)] else t
  }

  function MarkAll(t: Table, chosen: set<nat>, status: Status): Table {
    map i | i in t :: if i in chosen then t[i].(status := status) else t[i]
  }

  /** NewPieceManager: nothing downloaded, no peers known. */
  function Fresh(numPieces: nat, hashes: seq<string>): Table
    requires numPieces <= |hashes|
  {
    map i: nat | i < numPieces :: Piece(i, hashes[i], Missing, {}, 0)
  }

  /** One more peer makes a piece less rare; the rarest piece has the highest priority. */
  function WithPeers(p: Piece, peers: set<Peer>): Piece {
    p.(peers := peers, priority := 1000 - |peers|)
  }

  function AddPeer(t: Table, peer: Peer, chosen: set<int>): Table {
    map i | i in t :: if i in chosen then WithPeers(t[i], t[i].peers + {peer}) else t[i]
  }

  /** Removing a peer also puts back every requested piece, whichever peer it was asked of. */
  function Forget(p: Piece, peer: Peer): Piece {
    WithPeers(p, p.peers - {peer}).(status := if p.status.Requested? then Missing else p.status)
  }

  function DropPeer(t: Table, peer: Peer): Table {
    map i | i in t :: Forget(t[i], peer)
  }

  /** The table DownloadFile starts with: every connected peer is taken to have every piece. */
  function StartTable(numPieces: nat, hashes: seq<string>, peers: seq<Peer>): Table
    requires numPieces <= |hashes|
  {
    if peers == [] then Fresh(numPieces, hashes)
    else
      AddPeer(StartTable(numPieces, hashes, peers[..|peers| - 1]), peers[|peers| - 1], Elements(AllIndices(numPieces)))
  }

  function AllIndices(n: nat): seq<int> {
    seq(n, i => i)
  }

  lemma AllIndicesAre(n: nat, i: nat)
    ensures i in Elements(AllIndices(n)) <==> i < n
  {
    assert i < n ==> AllIndices(n)[i] == i;
  }

  /** Everything is missing at the start, and each piece has exactly the connected peers. */
  lemma {:induction false} StartTableIs(numPieces: nat, hashes: seq<string>, peers: seq<Peer>)
    requires numPieces <= |hashes|
    ensures var t := StartTable(numPieces, hashes, peers);
            && t.Keys == Fresh(numPieces, hashes).Keys
            && (forall i | i in t :: t[i].status == Missing && t[i].peers == Elements(peers))
  {
    if peers != [] {
      var last := |peers| - 1;
      StartTableIs(numPieces, hashes, peers[..last]);
      assert Elements(peers) == Elements(peers[..last]) + {peers[last]};
      var t0 := StartTable(numPieces, hashes, peers[..last]);
      forall i | i in t0 ensures i in Elements(AllIndices(numPieces)) {
        assert i in Fresh(numPieces, hashes).Keys;
        AllIndicesAre(numPieces, i);
      }
    }
  }

  predicate AllVerified(t: Table) {
    forall i | i in t :: t[i].status == Verified
  }

  /** Every piece is offered by some peer. */
  predicate Peered(t: Table) {
    forall i | i in t :: t[i].peers != {}
  }

  function WithStatus(t: Table, status: Status): set<nat> {
    set i | i in t && t[i].status == status
  }

  /** The pieces of the given status that some peer can supply. */
  function Candidates(t: Table, status: Status): set<nat> {
    set i | i in t && t[i].status == status && t[i].peers != {}
  }

  /** Missing pieces go first; only when there is none are Requested pieces handed out again. */
  function Pool(t: Table): set<nat> {
    var missing := Candidates(t, Missing);
    if missing != {} then missing else Candidates(t, Requested)
  }

  /** `batch` is a possible answer to a request for at most n pieces, whatever the comparator did. */
  ghost predicate IsBatch(t: Table, n: nat, batch: seq<nat>) {
    && Distinct(batch)
    && Elements(batch) <= Pool(t)
    && |batch| == Min(n, |Pool(t)|)
  }

  /** With a peer on every piece, an empty batch means that everything is verified. */
  lemma EmptyPoolMeansDone(t: Table)
    requires Peered(t)
    requires forall i | i in t :: t[i].status != Received
    ensures Pool(t) == {} <==> AllVerified(t)
  {
    if Pool(t) == {} {
      forall i | i in t ensures t[i].status == Verified {
        assert i !in Candidates(t, Missing) && i !in Candidates(t, Requested);
      }
    } else {
      var i := Member(Pool(t));
      assert t[i].status != Verified;
    }
  }

  /** Some batch always exists. */
  lemma BatchExists(t: Table, n: nat) returns (batch: seq<nat>)
    ensures IsBatch(t, n, batch)
  {
    batch := Pick(Pool(t), Min(n, |Pool(t)|));
  }

  lemma {:induction false} Pick(pool: set<nat>, k: nat) returns (batch: seq<nat>)
    requires k <= |pool|
    ensures Distinct(batch) && Elements(batch) <= pool && |batch| == k
  {
    if k == 0 {
      batch := [];
    } else {
      var x := Member(pool);
      var rest := Pick(pool - {x}, k - 1);
      assert x !in Elements(rest);
      batch := rest + [x];
      assert Elements(batch) == Elements(rest) + {x};
    }
  }

  // ---------------------------------------------------------------- any sequence of operations

  datatype Operation =
    | UpdatePeerPieces(peer: Peer, indices: seq<int>)
    | RemovePeer(peer: Peer)
    | GetNextPieces(n: nat, batch: seq<nat>)
    | MarkPieceStatus(index: int, status: Status)

  function Perform(t: Table, op: Operation): Table {
    match op
    case UpdatePeerPieces(peer, indices) => AddPeer(t, peer, Elements(indices))
    case RemovePeer(peer) => DropPeer(t, peer)
    case GetNextPieces(_, batch) => MarkAll(t, Elements(batch), Requested)
    case MarkPieceStatus(index, status) => Mark(t, index, status)
  }

  function PerformAll(t: Table, ops: seq<Operation>): Table {
    if ops == [] then t else Perform(PerformAll(t, ops[..|ops| - 1]), ops[|ops| - 1])
  }

  predicate Offers(op: Operation, i: nat, peer: Peer) {
    op.UpdatePeerPieces? && op.peer == peer && i in op.indices
  }

  predicate Withdraws(op: Operation, peer: Peer) {
    op.RemovePeer? && op.peer == peer
  }

  /** The latest operation that concerns this peer and piece was an offer. */
  ghost predicate Offered(ops: seq<Operation>, i: nat, peer: Peer) {
    exists k :: 0 <= k < |ops| && Offers(ops[k], i, peer) && forall j | k < j < |ops| :: !Withdraws(ops[j], peer)
  }

  lemma OfferedAppend(ops: seq<Operation>, op: Operation, i: nat, peer: Peer)
    ensures Offered(ops + [op], i, peer) <==> Offers(op, i, peer) || (Offered(ops, i, peer) && !Withdraws(op, peer))
  {
    var all := ops + [op];
    if Offers(op, i, peer) {
      assert Offers(all[|ops|], i, peer);
    }
    if Offered(ops, i, peer) && !Withdraws(op, peer) {
      var k :| 0 <= k < |ops| && Offers(ops[k], i, peer) && forall j | k < j < |ops| :: !Withdraws(ops[j], peer);
      assert Offers(all[k], i, peer);
      assert forall j | k < j < |all| :: !Withdraws(all[j], peer);
    }
    if Offered(all, i, peer) {
      var k :| 0 <= k < |all| && Offers(all[k], i, peer) && forall j | k < j < |all| :: !Withdraws(all[j], peer);
      if k < |ops| {
        assert Offers(ops[k], i, peer);
        assert forall j | k < j < |ops| :: ops[j] == all[j];
        assert !Withdraws(all[|ops|], peer);
      }
    }
  }

  lemma PerformKeepsPieces(t: Table, op: Operation)
    ensures Perform(t, op).Keys == t.Keys
    ensures forall i | i in t :: Perform(t, op)[i].index == t[i].index && Perform(t, op)[i].hash == t[i].hash
  {
  }

  predicate Ranked(p: Piece) {
    p.priority == 1000 - |p.peers|
  }

  /** The operation recomputes the priority of piece i. */
  predicate Reranks(op: Operation, i: nat) {
    op.RemovePeer? || (op.UpdatePeerPieces? && i in op.indices)
  }

  ghost predicate Reranked(ops: seq<Operation>, i: nat) {
    exists k :: 0 <= k < |ops| && Reranks(ops[k], i)
  }

  lemma RerankedAppend(ops: seq<Operation>, op: Operation, i: nat)
    ensures Reranked(ops + [op], i) <==> Reranked(ops, i) || Reranks(op, i)
  {
    var all := ops + [op];
    assert all[|ops|] == op;
    if Reranked(ops, i) {
      var k :| 0 <= k < |ops| && Reranks(ops[k], i);
      assert Reranks(all[k], i);
    }
  }

  /** What one operation makes of one piece. */
  function Performed(p: Piece, op: Operation, i: nat): Piece {
    match op
    case UpdatePeerPieces(peer, indices) => if i in indices then WithPeers(p, p.peers + {peer}) else p
    case RemovePeer(peer) => Forget(p, peer)
    case GetNextPieces(_, batch) => if i in batch then p.(status := Requested) else p
    case MarkPieceStatus(index, status) => if index == i then p.(status := status) else p
  }

  lemma PerformAt(t: Table, op: Operation, i: nat)
    requires i in t
    ensures i in Perform(t, op) && Perform(t, op)[i] == Performed(t[i], op, i)
  {
  }

  /** What one operation does to a piece's peers and priority. */
  lemma PerformEffect(t: Table, op: Operation, i: nat, p: Peer)
    requires i in t
    ensures i in Perform(t, op)
    ensures p in Perform(t, op)[i].peers <==> Offers(op, i, p) || (p in t[i].peers && !Withdraws(op, p))
    ensures if Reranks(op, i) then Ranked(Perform(t, op)[i])
            else Perform(t, op)[i].priority == t[i].priority && Perform(t, op)[i].peers == t[i].peers
  {
    PerformAt(t, op, i);
  }

  /**
   Over any sequence of operations on a fresh manager the pieces and their hashes stay the same, each
   piece's peers are those whose latest relevant operation was an offer, and its priority is 1000
   minus its number of peers as soon as it was offered by anybody or any peer was removed.
   */
  lemma {:induction false} PeersByHistory(numPieces: nat, hashes: seq<string>, ops: seq<Operation>)
    requires numPieces <= |hashes|
    ensures var t := PerformAll(Fresh(numPieces, hashes), ops);
            && (forall i: nat :: i in t <==> i < numPieces)
            && (forall i | i in t :: i < numPieces && t[i].index == i && t[i].hash == hashes[i])
            && (forall i, p | i in t :: p in t[i].peers <==> Offered(ops, i, p))
            && (forall i | i in t :: t[i].priority == if Reranked(ops, i) then 1000 - |t[i].peers| else 0)
  {
    if ops != [] {
      var before, op := ops[..|ops| - 1], ops[|ops| - 1];
      PeersByHistory(numPieces, hashes, before);
      var t0 := PerformAll(Fresh(numPieces, hashes), before);
      assert ops == before + [op];
      var t := Perform(t0, op);
      PerformKeepsPieces(t0, op);
      forall i | i in t ensures t[i].priority == if Reranked(ops, i) then 1000 - |t[i].peers| else 0 {
        PerformEffect(t0, op, i, "");
        RerankedAppend(before, op, i);
      }
      forall i, p | i in t ensures p in t[i].peers <==> Offered(ops, i, p) {
        PerformEffect(t0, op, i, p);
        OfferedAppend(before, op, i, p);
      }
    }
  }

  // ---------------------------------------------------------------- statuses

  /** The status that the operation gives to piece i, if it names one. */
  function Sets(op: Operation, i: nat): Option<Status> {
    match op
    case GetNextPieces(_, batch) => if i in batch then Some(Requested) else None
    case MarkPieceStatus(index, status) => if index == i then Some(status) else None
    case _ => None
  }

  /** Operation k was the last to give piece i a status. */
  ghost predicate SetLast(ops: seq<Operation>, k: nat, i: nat) {
    k < |ops| && Sets(ops[k], i).Some? && forall j | k < j < |ops| :: Sets(ops[j], i) == None
  }

  /** Some peer was removed after operation k. */
  ghost predicate RemovedAfter(ops: seq<Operation>, k: nat) {
    exists j :: k < j < |ops| && ops[j].RemovePeer?
  }

  lemma PerformStatus(t: Table, op: Operation, i: nat)
    requires i in t
    ensures i in Perform(t, op)
    ensures Perform(t, op)[i].status ==
            if Sets(op, i).Some? then Sets(op, i).value
            else if op.RemovePeer? && t[i].status == Requested then Missing
            else t[i].status
  {
    PerformAt(t, op, i);
  }

  lemma RemovedAfterAppend(ops: seq<Operation>, op: Operation, k: nat)
    requires k < |ops|
    ensures RemovedAfter(ops + [op], k) <==> RemovedAfter(ops, k) || op.RemovePeer?
  {
    var all := ops + [op];
    assert all[|ops|] == op;
    if RemovedAfter(ops, k) {
      var j :| k < j < |ops| && ops[j].RemovePeer?;
      assert all[j].RemovePeer?;
    }
  }

  lemma SetLastAppend(ops: seq<Operation>, op: Operation, k: nat, i: nat)
    requires SetLast(ops + [op], k, i)
    ensures k < |ops| ==> SetLast(ops, k, i) && Sets(op, i) == None && (ops + [op])[k] == ops[k]
    ensures k == |ops| ==> (ops + [op])[k] == op
  {
    var all := ops + [op];
    if k < |ops| {
      assert Sets(all[|ops|], i) == None;
      forall j | k < j < |ops| ensures Sets(ops[j], i) == None {
        assert all[j] == ops[j];
      }
    }
  }

  lemma NeverSetPrefix(ops: seq<Operation>, op: Operation, i: nat)
    requires forall k: nat :: !SetLast(ops + [op], k, i)
    ensures Sets(op, i) == None && forall k: nat :: !SetLast(ops, k, i)
  {
    var all := ops + [op];
    assert !SetLast(all, |ops|, i);
    forall k: nat ensures !SetLast(ops, k, i) {
      if SetLast(ops, k, i) {
        assert all[k] == ops[k];
        assert forall j | k < j < |all| :: Sets(all[j], i) == None;
        assert SetLast(all, k, i);
      }
    }
  }

  /**
   A piece that was never handed out or marked is missing. Otherwise it has the status last given to
   it, except that a requested piece goes back to missing when any peer is removed.
   */
  lemma {:induction false} StatusByHistory(numPieces: nat, hashes: seq<string>, ops: seq<Operation>, i: nat)
    requires i < numPieces <= |hashes|
    ensures i in PerformAll(Fresh(numPieces, hashes), ops)
    ensures (forall k: nat :: !SetLast(ops, k, i)) ==>
              PerformAll(Fresh(numPieces, hashes), ops)[i].status == Missing
    ensures forall k: nat | SetLast(ops, k, i) ::
              PerformAll(Fresh(numPieces, hashes), ops)[i].status ==
              if Sets(ops[k], i) == Some(Requested) && RemovedAfter(ops, k) then Missing else Sets(ops[k], i).value
  {
    if ops != [] {
      var before, op := ops[..|ops| - 1], ops[|ops| - 1];
      assert ops == before + [op];
      StatusByHistory(numPieces, hashes, before, i);
      PerformStatus(PerformAll(Fresh(numPieces, hashes), before), op, i);
      if forall k: nat :: !SetLast(ops, k, i) {
        NeverSetPrefix(before, op, i);
      }
      forall k: nat | SetLast(ops, k, i)
        ensures PerformAll(Fresh(numPieces, hashes), ops)[i].status ==
                if Sets(ops[k], i) == Some(Requested) && RemovedAfter(ops, k) then Missing else Sets(ops[k], i).value
      {
        SetLastAppend(before, op, k, i);
        if k < |before| {
          RemovedAfterAppend(before, op, k);
        }
      }
    }
  }

  lemma OfferedMeansRanked(ops: seq<Operation>, i: nat, p: Peer)
    requires Offered(ops, i, p)
    ensures Reranked(ops, i)
  {
    var k :| 0 <= k < |ops| && Offers(ops[k], i, p);
    assert Reranks(ops[k], i);
  }

  /** Among pieces that have a peer, a higher priority means strictly fewer peers. */
  lemma HigherPriorityIsRarer(numPieces: nat, hashes: seq<string>, ops: seq<Operation>, i: nat, j: nat)
    requires numPieces <= |hashes|
    requires var t := PerformAll(Fresh(numPieces, hashes), ops);
             i in t && j in t && t[i].peers != {} && t[j].peers != {}
    ensures var t := PerformAll(Fresh(numPieces, hashes), ops);
            t[i].priority > t[j].priority <==> |t[i].peers| < |t[j].peers|
  {
    PeersByHistory(numPieces, hashes, ops);
    var t := PerformAll(Fresh(numPieces, hashes), ops);
    var p := Member(t[i].peers);
    var q := Member(t[j].peers);
    OfferedMeansRanked(ops, i, p);
    OfferedMeansRanked(ops, j, q);
  }

  /** Rarest first: of two pieces that can be handed out, the one with the higher priority has at most as many peers. */
  lemma RarestFirst(numPieces: nat, hashes: seq<string>, ops: seq<Operation>, i: nat, j: nat)
    requires numPieces <= |hashes|
    requires var t := PerformAll(Fresh(numPieces, hashes), ops);
             i in Pool(t) && j in Pool(t) && t[j].priority <= t[i].priority
    ensures var t := PerformAll(Fresh(numPieces, hashes), ops); |t[i].peers| <= |t[j].peers|
  {
    HigherPriorityIsRarer(numPieces, hashes, ops, j, i);
  }

  /** A batch is missing pieces only, or, when there are none to be had, requested pieces only. */
  lemma BatchKinds(t: Table, n: nat, batch: seq<nat>)
    requires IsBatch(t, n, batch)
    ensures forall i | i in batch :: i in t && t[i].peers != {}
    ensures || (forall i | i in batch :: t[i].status == Missing)
            || (Candidates(t, Missing) == {} && forall i | i in batch :: t[i].status == Requested)
    ensures |batch| <= n && (|batch| < n ==> Elements(batch) == Pool(t))
  {
    assert forall i | i in batch :: i in Elements(batch);
    DistinctCount(batch);
    if |batch| < n {
      SubsetOfSameSize(Elements(batch), Pool(t));
    }
  }

  lemma SubsetOfSameSize<T>(a: set<T>, b: set<T>)
    requires a <= b && |a| == |b|
    ensures a == b
  {
    assert b == a + (b - a);
    assert |b - a| == 0;
  }
}
