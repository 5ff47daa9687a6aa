/** The PieceManager of piece_manager.go: piece records updated in place, proved against PieceTable. */
module PieceManager {
  import opened Common
  import opened PieceTable

  class PieceInfo {
    const index: nat
    const hash: string
    var status: Status
    var peers: set<Peer>
    var priority: int

    constructor (index: nat, hash: string)
      ensures View() == Piece(index, hash, Missing, {}, 0)
    {
      this.index, this.hash := index, hash;
      status, peers, priority := Missing, {}, 0;
    }

    function View(): Piece
      reads this
    {
      Piece(index, hash, status, peers, priority)
    }

    method RemovePeer(peer: Peer)
      modifies this
      ensures View() == Forget(old(View()), peer)
    {
      peers := peers - {peer};
      if status == Requested {
        status := Missing;
      }
      priority := 1000 - |peers|;
    }
  }

  class PieceManager {
    const pieces: map<nat, PieceInfo>
    ghost const Repr: set<PieceInfo>

    /** Records are stored under their own index, so no two entries share a record. */
    ghost predicate Valid() {
      forall i | i in pieces :: pieces[i] in Repr && pieces[i].index == i
    }

    ghost function View(): Table
      requires Valid()
      reads Repr
    {
      map i | i in pieces :: pieces[i].View()
    }

    constructor (numPieces: nat, hashes: seq<string>)
      requires numPieces <= |hashes|
      ensures Valid() && fresh(Repr)
      ensures View() == Fresh(numPieces, hashes)
    {
      var records: map<nat, PieceInfo> := map[];
      var i := 0;
      while i < numPieces
        invariant i <= numPieces
        invariant forall j: nat :: j in records <==> j < i
        invariant forall j: nat | j < i :: fresh(records[j]) && records[j].View() == Piece(j, hashes[j], Missing, {}, 0)
      {
        var record := new PieceInfo(i, hashes[i]);
        records := records[i := record];
        i := i + 1;
      }
      pieces := records;
      Repr := records.Values;
    }

    method UpdatePeerPieces(peer: Peer, pieceIndices: seq<int>)
      requires Valid()
      modifies Repr
      ensures View() == AddPeer(old(View()), peer, Elements(pieceIndices))
    {
      var k := 0;
      while k < |pieceIndices|
        invariant k <= |pieceIndices|
        invariant View() == AddPeer(old(View()), peer, Elements(pieceIndices[..k]))
      {
        var idx := pieceIndices[k];
        if idx in pieces {
          AddToRecord(idx, peer);
        }
        AddPeerStep(old(View()), peer, pieceIndices[..k], idx);
        assert pieceIndices[..k + 1] == pieceIndices[..k] + [idx];
        k := k + 1;
      }
      assert pieceIndices[..k] == pieceIndices;
    }

    /** One round of the loop. */
    method AddToRecord(i: nat, peer: Peer)
      requires Valid() && i in pieces
      modifies Repr
      ensures View() == old(View())[i := WithPeers(old(View())[i], old(View())[i].peers + {peer})]
    {
      ghost var t := View();
      assert forall j | j in pieces && j != i :: pieces[j] != pieces[i];
      var piece := pieces[i];
      piece.peers := piece.peers + {peer};
      piece.priority := 1000 - |piece.peers|;
      assert forall j | j in pieces && j != i :: pieces[j].View() == t[j];
    }

    method RemovePeer(peer: Peer)
      requires Valid()
      modifies Repr
      ensures View() == DropPeer(old(View()), peer)
    {
      ghost var t := View();
      var todo := pieces.Keys;
      DropNobodyYet(t, peer);
      while todo != {}
        invariant todo <= pieces.Keys
        invariant View() == DropPeerPartly(t, peer, todo)
        decreases |todo|
      {
        Inhabited(todo);
        var i :| i in todo;
        DropPeerStep(t, peer, todo, i);
        DropFromRecord(i, peer);
        todo := todo - {i};
      }
      DropEverywhere(t, peer);
    }

    /** One round of the loop. */
    method DropFromRecord(i: nat, peer: Peer)
      requires Valid() && i in pieces
      modifies Repr
      ensures View() == old(View())[i := Forget(old(View())[i], peer)]
    {
      ghost var t := View();
      assert forall j | j in pieces && j != i :: pieces[j] != pieces[i];
      pieces[i].RemovePeer(peer);
      assert forall j | j in pieces && j != i :: pieces[j].View() == t[j];
    }

    /** The records of the given status with a peer, copied in the order the map iteration gives them. */
    method Collect(status: Status) returns (found: seq<Piece>)
      requires Valid()
      ensures Copies(View(), found)
      ensures Distinct(Indices(found))
      ensures Elements(Indices(found)) == Candidates(View(), status)
    {
      ghost var t := View();
      found := [];
      var todo := pieces.Keys;
      while todo != {}
        invariant todo <= pieces.Keys
        invariant Copies(t, found)
        invariant Elements(Indices(found)) == Candidates(t, status) - todo
        invariant Distinct(Indices(found))
        decreases |todo|
      {
        Inhabited(todo);
        var i :| i in todo;
        var piece := pieces[i].View();
        assert piece == t[i];
        CollectStep(t, status, found, todo, i);
        if piece.status == status && piece.peers != {} {
          found := found + [piece];
        }
        todo := todo - {i};
      }
    }

    /**
     Hands out at most n pieces and marks exactly those requested. The copies carry the status from
     before. The comparator is partly random: `swaps` stand for what it does to the order, and
     `priorityOnly` says that every draw fell to the priorities. Then the batch is sorted by priority
     and nothing with a higher priority is left behind.
     */
    method GetNextPieces(n: nat, swaps: seq<(nat, nat)>, priorityOnly: bool) returns (chosen: seq<Piece>)
      requires Valid()
      modifies Repr
      ensures IsBatch(old(View()), n, Indices(chosen))
      ensures Copies(old(View()), chosen)
      ensures View() == MarkAll(old(View()), Elements(Indices(chosen)), Requested)
      ensures priorityOnly ==> Descending(chosen) && NoneHigher(old(View()), chosen)
    {
      ghost var t := View();
      var candidates := Collect(Missing);
      assert |candidates| > 0 ==> Indices(candidates)[0] in Candidates(t, Missing);
      if |candidates| == 0 {
        candidates := Collect(Requested);
      }
      ghost var unsorted := candidates;
      candidates := SortSlice(candidates, swaps, priorityOnly);
      SameIndices(unsorted, candidates);
      SameCopies(t, unsorted, candidates);
      CutKeepsBatch(t, candidates, n);
      if priorityOnly {
        CutKeepsHighest(t, candidates, n);
      }
      if |candidates| > n {
        candidates := candidates[..n];
      }
      MarkRequested(candidates);
      chosen := candidates;
    }

    method MarkRequested(chosen: seq<Piece>)
      requires Valid() && Copies(View(), chosen)
      modifies Repr
      ensures View() == MarkAll(old(View()), Elements(Indices(chosen)), Requested)
    {
      ghost var t := View();
      var k := 0;
      while k < |chosen|
        invariant k <= |chosen|
        invariant View() == MarkAll(t, Elements(Indices(chosen[..k])), Requested)
      {
        var i := chosen[k].index;
        MarkStep(t, Elements(Indices(chosen[..k])), i);
        MarkPieceStatus(i, Requested);
        IndicesAppend(chosen[..k], chosen[k]);
        assert chosen[..k + 1] == chosen[..k] + [chosen[k]];
        k := k + 1;
      }
      assert chosen[..k] == chosen;
    }

    method MarkPieceStatus(index: int, status: Status)
      requires Valid()
      modifies Repr
      ensures View() == Mark(old(View()), index, status)
    {
      ghost var t := View();
      if index in pieces {
        assert forall j | j in pieces && j != index :: pieces[j] != pieces[index];
        pieces[index].status := status;
        assert forall j | j in pieces && j != index :: pieces[j].View() == t[j];
      }
    }

    method IsComplete() returns (complete: bool)
      requires Valid()
      ensures complete <==> AllVerified(View())
    {
      var todo := pieces.Keys;
      while todo != {}
        invariant todo <= pieces.Keys
        invariant forall i | i in pieces && i !in todo :: pieces[i].status == Verified
        decreases |todo|
      {
        Inhabited(todo);
        var i :| i in todo;
        if pieces[i].status != Verified {
          assert View()[i].status != Verified;
          return false;
        }
        todo := todo - {i};
      }
      return true;
    }
  }

  function Indices(found: seq<Piece>): (indices: seq<nat>)
    ensures |indices| == |found|
  {
    seq(|found|, k requires 0 <= k < |found| => found[k].index)
  }

  /** Marking one more piece requested. */
  lemma MarkStep(t: Table, done: set<nat>, i: nat)
    requires i in t
    ensures MarkAll(t, done + {i}, Requested) == Mark(MarkAll(t, done, Requested), i, Requested)
  {
  }

  /** The table when the peer has been removed from all pieces but those in `todo`. */
  function DropPeerPartly(t: Table, peer: Peer, todo: set<nat>): Table {
    map i | i in t :: if i in todo then t[i] else Forget(t[i], peer)
  }

  lemma DropPeerStep(t: Table, peer: Peer, todo: set<nat>, i: nat)
    requires i in todo && i in t
    ensures DropPeerPartly(t, peer, todo - {i})
            == DropPeerPartly(t, peer, todo)[i := Forget(DropPeerPartly(t, peer, todo)[i], peer)]
  {
  }

  lemma DropNobodyYet(t: Table, peer: Peer)
    ensures DropPeerPartly(t, peer, t.Keys) == t
  {
  }

  lemma DropEverywhere(t: Table, peer: Peer)
    ensures DropPeerPartly(t, peer, {}) == DropPeer(t, peer)
  {
  }

  /** Every element is a copy of the table's entry under its own index. */
  ghost predicate Copies(t: Table, found: seq<Piece>) {
    forall k | 0 <= k < |found| :: found[k].index in t && found[k] == t[found[k].index]
  }

  lemma CollectStep(t: Table, status: Status, found: seq<Piece>, todo: set<nat>, i: nat)
    requires i in todo && i in t && t[i].index == i
    requires Elements(Indices(found)) == Candidates(t, status) - todo
    requires Distinct(Indices(found))
    ensures var found' := if t[i].status == status && t[i].peers != {} then found + [t[i]] else found;
            && Elements(Indices(found')) == Candidates(t, status) - (todo - {i})
            && Distinct(Indices(found'))
  {
    IndicesAppend(found, t[i]);
    assert i !in Elements(Indices(found));
  }

  lemma SameCopies(t: Table, a: seq<Piece>, b: seq<Piece>)
    requires Elements(a) == Elements(b) && Copies(t, a)
    ensures Copies(t, b)
  {
    forall k | 0 <= k < |b| ensures b[k].index in t && b[k] == t[b[k].index] {
      assert b[k] in Elements(a);
    }
  }

  lemma IndicesAppend(found: seq<Piece>, p: Piece)
    ensures Indices(found + [p]) == Indices(found) + [p.index]
    ensures Elements(Indices(found + [p])) == Elements(Indices(found)) + {p.index}
  {
  }

  /** Adding one more index to those already handled. */
  lemma AddPeerStep(t: Table, peer: Peer, done: seq<int>, idx: int)
    ensures var before := AddPeer(t, peer, Elements(done));
            AddPeer(t, peer, Elements(done + [idx]))
            == if idx >= 0 && idx in before then before[idx := WithPeers(before[idx], before[idx].peers + {peer})]
               else before
  {
    assert Elements(done + [idx]) == Elements(done) + {idx};
    forall i | i in t && i in done ensures t[i].peers + {peer} + {peer} == t[i].peers + {peer} {
    }
  }

  lemma SwapKeeps(s: seq<Piece>, i: nat, j: nat)
    requires i < |s| && j < |s|
    ensures var s' := s[i := s[j]][j := s[i]];
            && Elements(s') == Elements(s)
            && (Distinct(Indices(s)) ==> Distinct(Indices(s')))
  {
    var s' := s[i := s[j]][j := s[i]];
    forall x ensures x in Elements(s') <==> x in Elements(s) {
      if x in s {
        var k :| 0 <= k < |s| && s[k] == x;
        assert s'[if k == i then j else if k == j then i else k] == x;
      }
    }
    if Distinct(Indices(s)) {
      forall a, b | 0 <= a < b < |s'| ensures Indices(s')[a] != Indices(s')[b] {
        var a' := if a == i then j else if a == j then i else a;
        var b' := if b == i then j else if b == j then i else b;
        assert Indices(s')[a] == Indices(s)[a'] && Indices(s')[b] == Indices(s)[b'];
      }
    }
  }

  /** Cutting an ordered list of all candidates down to n leaves a legal batch. */
  lemma CutKeepsBatch(t: Table, found: seq<Piece>, n: nat)
    requires Distinct(Indices(found)) && Elements(Indices(found)) == Pool(t)
    ensures IsBatch(t, n, Indices(if |found| > n then found[..n] else found))
  {
    DistinctCount(Indices(found));
    var cut := if |found| > n then found[..n] else found;
    forall i | i in Elements(Indices(cut)) ensures i in Elements(Indices(found)) {
      var k :| 0 <= k < |cut| && Indices(cut)[k] == i;
      assert Indices(found)[k] == i;
    }
    forall a, b | 0 <= a < b < |cut| ensures Indices(cut)[a] != Indices(cut)[b] {
      assert Indices(cut)[a] == Indices(found)[a] && Indices(cut)[b] == Indices(found)[b];
    }
  }

  /** The same pieces in another order have the same indices. */
  lemma SameIndices(a: seq<Piece>, b: seq<Piece>)
    requires Elements(a) == Elements(b)
    ensures Elements(Indices(a)) == Elements(Indices(b))
  {
    forall i ensures i in Elements(Indices(a)) <==> i in Elements(Indices(b)) {
      IndexOf(a, i);
      IndexOf(b, i);
    }
  }

  lemma IndexOf(s: seq<Piece>, i: nat)
    ensures i in Elements(Indices(s)) <==> exists p :: p in Elements(s) && p.index == i
  {
    if i in Elements(Indices(s)) {
      var k :| 0 <= k < |s| && Indices(s)[k] == i;
      assert s[k] in Elements(s);
    }
    if p :| p in Elements(s) && p.index == i {
      var k :| 0 <= k < |s| && s[k] == p;
      assert Indices(s)[k] == i;
    }
  }

  ghost predicate Descending(s: seq<Piece>) {
    forall i, j | 0 <= i < j < |s| :: s[i].priority >= s[j].priority
  }

  /** No piece that could have been handed out instead has a higher priority. */
  ghost predicate NoneHigher(t: Table, chosen: seq<Piece>) {
    forall i, k | i in Pool(t) && i !in Elements(Indices(chosen)) && 0 <= k < |chosen| ::
      t[i].priority <= chosen[k].priority
  }

  /** Cutting a sorted list leaves the highest priorities. */
  lemma CutKeepsHighest(t: Table, sorted: seq<Piece>, n: nat)
    requires Descending(sorted) && Copies(t, sorted) && Elements(Indices(sorted)) == Pool(t)
    ensures var chosen := if |sorted| > n then sorted[..n] else sorted;
            Descending(chosen) && NoneHigher(t, chosen)
  {
    var chosen := if |sorted| > n then sorted[..n] else sorted;
    forall i, k | i in Pool(t) && i !in Elements(Indices(chosen)) && 0 <= k < |chosen|
      ensures t[i].priority <= chosen[k].priority
    {
      assert i in Elements(Indices(sorted));
      var m :| 0 <= m < |sorted| && Indices(sorted)[m] == i;
      InCut(sorted, n, m);
      assert sorted[m] == t[i] && chosen[k] == sorted[k];
    }
  }

  lemma InCut(sorted: seq<Piece>, n: nat, m: nat)
    requires m < |sorted|
    ensures var chosen := if |sorted| > n then sorted[..n] else sorted;
            m < |chosen| ==> Indices(sorted)[m] in Elements(Indices(chosen))
  {
    var chosen := if |sorted| > n then sorted[..n] else sorted;
    if m < |chosen| {
      assert Indices(chosen)[m] == Indices(sorted)[m];
    }
  }

  function Insert(s: seq<Piece>, p: Piece): (r: seq<Piece>)
    ensures multiset(r) == multiset(s) + multiset{p}
  {
    if s == [] || s[0].priority <= p.priority then [p] + s
    else
      assert s == [s[0]] + s[1..];
      [s[0]] + Insert(s[1..], p)
  }

  function ByPriority(s: seq<Piece>): (r: seq<Piece>)
    ensures multiset(r) == multiset(s)
  {
    if s == [] then []
    else
      assert s == [s[0]] + s[1..];
      Insert(ByPriority(s[1..]), s[0])
  }

  lemma InsertElements(s: seq<Piece>, p: Piece, k: nat)
    requires k < |Insert(s, p)|
    ensures Insert(s, p)[k] == p || Insert(s, p)[k] in s
  {
    assert Insert(s, p)[k] in multiset(Insert(s, p));
  }

  lemma {:induction false} InsertDescending(s: seq<Piece>, p: Piece)
    requires Descending(s)
    ensures Descending(Insert(s, p))
  {
    if s != [] && s[0].priority > p.priority {
      InsertDescending(s[1..], p);
      forall k | 0 <= k < |Insert(s[1..], p)| ensures Insert(s[1..], p)[k].priority <= s[0].priority {
        InsertElements(s[1..], p, k);
      }
    }
  }

  lemma {:induction false} ByPriorityDescending(s: seq<Piece>)
    ensures Descending(ByPriority(s))
  {
    if s != [] {
      ByPriorityDescending(s[1..]);
      InsertDescending(ByPriority(s[1..]), s[0]);
    }
  }

  /** Any rearrangement has the same elements, and no index twice if there was none before. */
  lemma Rearranged(a: seq<Piece>, b: seq<Piece>)
    requires multiset(a) == multiset(b) && Distinct(Indices(a))
    ensures Distinct(Indices(b)) && |b| == |a| && Elements(b) == Elements(a)
  {
    assert |multiset(a)| == |a| && |multiset(b)| == |b|;
    forall x ensures x in Elements(a) <==> x in Elements(b) {
      assert x in Elements(a) <==> x in multiset(a);
      assert x in Elements(b) <==> x in multiset(b);
    }
    SameIndices(a, b);
    DistinctCount(Indices(a));
    CountDistinct(Indices(b));
  }

  /** A library sort puts the elements into some order; by priority, if the comparator looks at nothing else. */
  method SortSlice(candidates: seq<Piece>, swaps: seq<(nat, nat)>, priorityOnly: bool) returns (sorted: seq<Piece>)
    requires Distinct(Indices(candidates))
    ensures Distinct(Indices(sorted)) && |sorted| == |candidates|
    ensures Elements(sorted) == Elements(candidates)
    ensures priorityOnly ==> Descending(sorted)
  {
    sorted := candidates;
    var k := 0;
    while k < |swaps|
      invariant k <= |swaps|
      invariant Distinct(Indices(sorted)) && |sorted| == |candidates|
      invariant Elements(sorted) == Elements(candidates)
    {
      var (i, j) := swaps[k];
      if i < |sorted| && j < |sorted| {
        ghost var before := sorted;
        sorted := sorted[i := sorted[j]][j := sorted[i]];
        SwapKeeps(before, i, j);
      }
      k := k + 1;
    }
    if priorityOnly {
      Rearranged(sorted, ByPriority(sorted));
      ByPriorityDescending(sorted);
      sorted := ByPriority(sorted);
    }
  }
}
