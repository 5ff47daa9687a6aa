/**
 The two parts of the downloading side that run under a lock and without interleaving: setting up the
 piece manager, and handing a response to every registered handler.
 */
module DownloadClient {
  import opened Common
  import opened PieceTable
  import opened DownloadSystem
  import PM = PieceManager
  import Safety = DownloadSafety

  /** Every connected peer is entered for every piece, in whatever order the peers come. */
  method InitializePieces(numPieces: nat, hashes: seq<string>, peers: set<Peer>)
    returns (manager: PM.PieceManager, ghost order: seq<Peer>)
    requires numPieces <= |hashes|
    ensures manager.Valid() && fresh(manager.Repr)
    ensures manager.View() == StartTable(numPieces, hashes, order) && Elements(order) == peers
    ensures forall i | i in manager.View() ::
              manager.View()[i].status == Missing && manager.View()[i].peers == peers
  {
    manager := new PM.PieceManager(numPieces, hashes);
    order := [];
    var todo := peers;
    while todo != {}
      invariant todo <= peers && Elements(order) == peers - todo
      invariant manager.Valid() && fresh(manager.Repr)
      invariant manager.View() == StartTable(numPieces, hashes, order)
      decreases |todo|
    {
      var addr :| addr in todo;
      manager.UpdatePeerPieces(addr, AllIndices(numPieces));
      assert (order + [addr])[..|order|] == order;
      assert Elements(order + [addr]) == Elements(order) + {addr};
      order := order + [addr];
      todo := todo - {addr};
    }
    StartTableIs(numPieces, hashes, order);
  }

  /** The closure that downloadChunk registers, with the channels it writes to. */
  class ResponseHandler {
    const fileID: FileId
    const chunkIndex: nat
    const owner: nat
    var done: bool
    var responseChan: Option<Message>
    var errChan: bool
    ghost var accepted: nat
    ghost var taken: nat

    constructor (fileID: FileId, chunkIndex: nat, owner: nat)
      ensures View() == Handler(fileID, chunkIndex, true, None, false, owner, 0, 0)
    {
      this.fileID, this.chunkIndex, this.owner := fileID, chunkIndex, owner;
      done, responseChan, errChan, accepted, taken := false, None, false, 0, 0;
    }

    ghost function View(): Handler
      reads this
    {
      Handler(fileID, chunkIndex, !done, responseChan, errChan, owner, accepted, taken)
    }

    /** The test at the beginning of a call. */
    method PassesTest() returns (pass: bool)
      ensures pass <==> View().open
    {
      pass := !done;
    }

    /**
     The rest of a call that has passed the test, whatever happened in between. It never blocks: a
     full channel and a message for somebody else are both passed over.
     */
    method Put(msg: Message)
      modifies this
      ensures View() == Handle(old(View()), msg)
    {
      match msg
      case BadPayload =>
        errChan := true;
      case Response(file, chunk, _) =>
        if file != fileID || chunk != chunkIndex {
          return;
        }
        if responseChan == None {
          responseChan := Some(msg);
          accepted := accepted + 1;
        }
    }

    /** A call that nothing interrupts. */
    method Call(msg: Message)
      modifies this
      ensures View() == Safety.CallHandler(old(View()), msg)
    {
      var pass := PassesTest();
      if !pass {
        return;
      }
      Put(msg);
    }
  }

  ghost predicate AllDifferent(handlers: seq<ResponseHandler>) {
    forall i, j | 0 <= i < j < |handlers| :: handlers[i] != handlers[j]
  }

  ghost function Views(handlers: seq<ResponseHandler>): seq<Handler>
    reads handlers
  {
    seq(|handlers|, k requires 0 <= k < |handlers| reads handlers => handlers[k].View())
  }

  /** Every handler on the list sees the message once, whatever the others did with it. */
  method RouteResponse(handlers: seq<ResponseHandler>, msg: Message)
    requires AllDifferent(handlers)
    modifies handlers
    ensures Views(handlers) == Safety.Broadcast(old(Views(handlers)), msg)
  {
    var k := 0;
    while k < |handlers|
      invariant k <= |handlers|
      invariant forall j | 0 <= j < |handlers| ::
                  handlers[j].View() ==
                  if j < k then Safety.CallHandler(old(handlers[j].View()), msg) else old(handlers[j].View())
    {
      assert forall j | 0 <= j < |handlers| && j != k :: handlers[j] != handlers[k];
      handlers[k].Call(msg);
      k := k + 1;
    }
  }
}
