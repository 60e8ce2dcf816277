/**
 * The stock manager's client of a replicated store
 * (ReplicationAwareStockManagerHTTPProxy): reads go to a randomly chosen
 * replica for as long as the slave set is non-empty, failed replicas are
 * dropped from it, reads are retried until the reply is at least as recent
 * as the last one seen, and writes are one send to the master.
 */
module StockManagerProxy {
  import opened BookStoreTypes
  import opened ProxyCommon

  class ReplicationAwareStockManagerHTTPProxy {
    /** The slave set, held in its iteration order. */
    var slaveAddresses: seq<string>
    var masterAddress: string
    /** The snapshot id of the most recent reply this client accepted. */
    var snapshotId: int

    ghost predicate Valid()
      reads this
    {
      Distinct(slaveAddresses) && HasHttpScheme(masterAddress) && EndsWith(masterAddress, StockSuffix)
    }

    /**
     * Initialise from the configured master and slave addresses (already
     * split): each gets "http://" unless it has it, then "/stock" unless it
     * ends with it; the snapshot id is 0.
     */
    constructor(master: string, slaves: seq<string>)
      ensures Valid()
      ensures masterAddress == StockAddress(master)
      ensures slaveAddresses == AddressSet(slaves, StockAddress)
      ensures forall a :: a in slaveAddresses ==> HasHttpScheme(a) && EndsWith(a, StockSuffix)
      ensures snapshotId == 0
    {
      masterAddress := StockAddress(master);
      var collected := CollectAddresses(slaves, StockAddress);
      slaveAddresses := collected;
      snapshotId := 0;
    }

    /** markReplicaServerFaulty: drop an address from the slave set; an address not in it changes nothing. */
    method MarkReplicaServerFaulty(address: string)
      requires Valid()
      modifies this
      ensures Valid()
      ensures slaveAddresses == Remove(old(slaveAddresses), address)
      ensures address !in old(slaveAddresses) ==> slaveAddresses == old(slaveAddresses)
      ensures masterAddress == old(masterAddress) && snapshotId == old(snapshotId)
    {
      slaveAddresses := Remove(slaveAddresses, address);
    }

    /**
     * getReplicaAddress, given the number drawn from [0, |slaves|]: walk the
     * slave set to the num-th member; past its end, the master.
     */
    method GetReplicaAddress(num: int) returns (r: Replica)
      ensures r == SelectReplica(slaveAddresses, num)
    {
      r := WalkToReplica(slaveAddresses, num);
    }

    /**
     * One pass of sendToAvailableReplica's loop body: send to a drawn
     * replica; on a network failure remove the address from the slave set
     * (which leaves it as it was when the address is the master's).
     */
    method TryReplica<T>(tag: MessageTag, net: Network<T>, n: nat)
      returns (address: string, outcome: SendOutcome<T>)
      requires Valid()
      modifies this
      ensures Valid() && masterAddress == old(masterAddress) && snapshotId == old(snapshotId)
      ensures address == AddressOf(SelectReplica(old(slaveAddresses), net.draw(n)), masterAddress)
      ensures address == masterAddress || address in old(slaveAddresses)
      ensures outcome == net.send(n, Request(address, tag, ""))
      ensures outcome.NetworkFailure? ==> slaveAddresses == Remove(old(slaveAddresses), address)
      ensures !outcome.NetworkFailure? ==> slaveAddresses == old(slaveAddresses)
    {
      var replica := GetReplicaAddress(net.draw(n));
      address := AddressOf(replica, masterAddress);
      outcome := net.send(n, Request(address, tag, ""));
      if outcome.NetworkFailure? {
        MarkReplicaServerFaulty(address);
      }
    }

    /**
     * sendToAvailableReplica from the n-th send on. Besides the result and
     * the index of the next send it returns (ghost) the addresses whose
     * sends met a network failure, in order, and the address that answered
     * when one did: the loop stops at the first send that is answered. It
     * runs only while the slave set is non-empty, so with no slave it
     * fails with "Service not available" without sending anything, and it
     * fails so whenever it ends with the slave set empty. A failed master
     * stays eligible. The slave set it leaves is the old one without the
     * addresses that failed.
     */
    method SendToAvailableReplica<T>(tag: MessageTag, net: Network<T>, n: nat)
      returns (result: SendResult<T>, next: nat, ghost failed: seq<string>, ghost answerer: string)
      requires Valid()
      modifies this
      ensures Valid()
      ensures masterAddress == old(masterAddress) && snapshotId == old(snapshotId)
      ensures next == n + |failed| + (if result.Received? || result.Relayed? then 1 else 0)
      ensures forall k :: 0 <= k < |failed| ==> net.send(n + k, Request(failed[k], tag, "")).NetworkFailure?
      ensures result.Received? ==> net.send(n + |failed|, Request(answerer, tag, "")) == Delivered(result.reply)
      ensures result.Relayed? ==> net.send(n + |failed|, Request(answerer, tag, "")) == Rejected(result.error)
      ensures forall k :: 0 <= k < |failed| ==> failed[k] == masterAddress || failed[k] in old(slaveAddresses)
      ensures result.Received? || result.Relayed? ==> answerer == masterAddress || answerer in old(slaveAddresses)
      ensures forall a :: a in slaveAddresses <==> a in old(slaveAddresses) && a !in failed
      ensures result.Raised? <==> slaveAddresses == [] && !result.OutOfAttempts? && !result.Received? && !result.Relayed?
      ensures result.Raised? ==> result.error == ServiceNotAvailable
      ensures old(slaveAddresses) == [] ==> result == Raised(ServiceNotAvailable) && failed == [] && next == n
      ensures result.OutOfAttempts? ==> net.limit <= next
      ensures failed != [] || result.Received? || result.Relayed? ==> next <= net.limit
    {
      next := n;
      failed, answerer := [], masterAddress;
      while |slaveAddresses| != 0
        invariant Valid() && masterAddress == old(masterAddress) && snapshotId == old(snapshotId)
        invariant next == n + |failed|
        invariant failed != [] ==> next <= net.limit
        invariant forall k :: 0 <= k < |failed| ==> net.send(n + k, Request(failed[k], tag, "")).NetworkFailure?
        invariant forall k :: 0 <= k < |failed| ==> failed[k] == masterAddress || failed[k] in old(slaveAddresses)
        invariant forall a :: a in slaveAddresses <==> a in old(slaveAddresses) && a !in failed
        invariant old(slaveAddresses) == [] ==> failed == [] && slaveAddresses == []
        decreases net.limit - next
      {
        if next >= net.limit {
          return OutOfAttempts, next, failed, answerer;
        }
        var address, outcome := TryReplica(tag, net, next);
        match outcome
        case Delivered(reply) =>
          return Received(reply), next + 1, failed, address;
        case Rejected(e) =>
          return Relayed(e), next + 1, failed, address;
        case NetworkFailure =>
          failed := failed + [address];
          next := next + 1;
      }
      return Raised(ServiceNotAvailable), next, failed, answerer;
    }

    /**
     * The do-while of the reads: send until a reply is at least as recent
     * as the stored snapshot id, then store the reply's id and return its
     * list. It returns, besides the outcome and the next send's index, the
     * send whose reply or exception ended it (ghost): a value comes from a
     * reply no older than the last one accepted, and the stored id never
     * decreases and changes only when a value is returned.
     */
    method ReadFresh<T>(tag: MessageTag, net: Network<T>, n: nat)
      returns (r: Outcome<seq<T>>, next: nat, ghost at: nat, ghost address: string)
      requires Valid()
      modifies this
      ensures Valid() && masterAddress == old(masterAddress)
      ensures forall a :: a in slaveAddresses ==> a in old(slaveAddresses)
      ensures n <= next
      ensures snapshotId >= old(snapshotId)
      ensures !r.Value? ==> snapshotId == old(snapshotId)
      ensures r.Value? ==>
        && n <= at < next <= net.limit
        && (address == masterAddress || address in old(slaveAddresses))
        && net.send(at, Request(address, tag, "")) == Delivered(Reply(snapshotId, r.value))
      ensures r.Threw? ==>
        r.error == ServiceNotAvailable ||
        (n <= at < next && net.send(at, Request(address, tag, "")) == Rejected(r.error))
      ensures old(slaveAddresses) == [] ==> r == Threw(ServiceNotAvailable) && next == n
    {
      next := n;
      at, address := n, masterAddress;
      while true
        invariant Valid() && masterAddress == old(masterAddress) && snapshotId == old(snapshotId)
        invariant forall a :: a in slaveAddresses ==> a in old(slaveAddresses)
        invariant n <= next
        invariant old(slaveAddresses) == [] ==> slaveAddresses == [] && next == n
        decreases net.limit - next
      {
        var result, after, failed, answerer := SendToAvailableReplica(tag, net, next);
        match result
        case Received(reply) =>
          if reply.snapshotId >= snapshotId {
            snapshotId := reply.snapshotId;
            return Value(reply.resultList), after, next + |failed|, answerer;
          }
          next := after;
        case Raised(e) =>
          return Threw(e), after, at, address;
        case Relayed(e) =>
          return Threw(e), after, next + |failed|, answerer;
        case OutOfAttempts =>
          return Exhausted, after, at, address;
      }
    }

    /** getBooks: a read of the store's stock books, retried until fresh. */
    method GetBooks(net: Network<StockBook>, n: nat)
      returns (r: Outcome<seq<StockBook>>, next: nat, ghost at: nat, ghost address: string)
      requires Valid()
      modifies this
      ensures Valid() && masterAddress == old(masterAddress)
      ensures snapshotId >= old(snapshotId) && (!r.Value? ==> snapshotId == old(snapshotId))
      ensures r.Value? ==>
        && (address == masterAddress || address in old(slaveAddresses))
        && net.send(at, Request(address, LISTBOOKS, "")) == Delivered(Reply(snapshotId, r.value))
      ensures old(slaveAddresses) == [] ==> r == Threw(ServiceNotAvailable)
    {
      r, next, at, address := ReadFresh(LISTBOOKS, net, n);
    }

    /** getBooksByISBN: a read of the listed stock books (the ISBNs travel in the body), retried until fresh. */
    method GetBooksByIsbn(net: Network<StockBook>, n: nat)
      returns (r: Outcome<seq<StockBook>>, next: nat, ghost at: nat, ghost address: string)
      requires Valid()
      modifies this
      ensures Valid() && masterAddress == old(masterAddress)
      ensures snapshotId >= old(snapshotId) && (!r.Value? ==> snapshotId == old(snapshotId))
      ensures r.Value? ==>
        && (address == masterAddress || address in old(slaveAddresses))
        && net.send(at, Request(address, GETSTOCKBOOKSBYISBN, "")) == Delivered(Reply(snapshotId, r.value))
      ensures old(slaveAddresses) == [] ==> r == Threw(ServiceNotAvailable)
    {
      r, next, at, address := ReadFresh(GETSTOCKBOOKSBYISBN, net, n);
    }

    /**
     * A write: one send, the n-th, to the master's address plus the tag and
     * query. A reply's snapshot id is stored as it is (no freshness check);
     * a server's exception is passed on; a network failure is swallowed,
     * and the null result is then dereferenced, so the call fails with a
     * NullPointerException and stores nothing.
     */
    method WriteToMaster<T>(tag: MessageTag, query: string, net: Network<T>, n: nat)
      returns (r: Outcome<()>, next: nat)
      requires Valid()
      modifies this
      ensures Valid() && masterAddress == old(masterAddress) && slaveAddresses == old(slaveAddresses)
      ensures next == n + 1
      ensures net.send(n, Request(masterAddress, tag, query)).Delivered? ==>
        r == Value(()) && snapshotId == net.send(n, Request(masterAddress, tag, query)).reply.snapshotId
      ensures net.send(n, Request(masterAddress, tag, query)).Rejected? ==>
        r == Threw(net.send(n, Request(masterAddress, tag, query)).error) && snapshotId == old(snapshotId)
      ensures net.send(n, Request(masterAddress, tag, query)).NetworkFailure? ==>
        r == Threw(NullReference) && snapshotId == old(snapshotId)
    {
      next := n + 1;
      match net.send(n, Request(masterAddress, tag, query))
      case Delivered(reply) =>
        snapshotId := reply.snapshotId;
        r := Value(());
      case Rejected(e) =>
        r := Threw(e);
      case NetworkFailure =>
        r := Threw(NullReference);
    }

    /** addBooks: a write of the given stock books to the master. */
    method AddBooks<T>(net: Network<T>, n: nat) returns (r: Outcome<()>, next: nat)
      requires Valid()
      modifies this
      ensures Valid() && masterAddress == old(masterAddress) && slaveAddresses == old(slaveAddresses)
      ensures next == n + 1
      ensures net.send(n, Request(masterAddress, ADDBOOKS, "")).Delivered? ==>
        r == Value(()) && snapshotId == net.send(n, Request(masterAddress, ADDBOOKS, "")).reply.snapshotId
      ensures !net.send(n, Request(masterAddress, ADDBOOKS, "")).Delivered? ==> r.Threw? && snapshotId == old(snapshotId)
    {
      r, next := WriteToMaster(ADDBOOKS, "", net, n);
    }

    /** addCopies: a write of the given copy counts to the master. */
    method AddCopies<T>(net: Network<T>, n: nat) returns (r: Outcome<()>, next: nat)
      requires Valid()
      modifies this
      ensures Valid() && masterAddress == old(masterAddress) && slaveAddresses == old(slaveAddresses)
      ensures next == n + 1
      ensures net.send(n, Request(masterAddress, ADDCOPIES, "")).Delivered? ==>
        r == Value(()) && snapshotId == net.send(n, Request(masterAddress, ADDCOPIES, "")).reply.snapshotId
      ensures !net.send(n, Request(masterAddress, ADDCOPIES, "")).Delivered? ==> r.Threw? && snapshotId == old(snapshotId)
    {
      r, next := WriteToMaster(ADDCOPIES, "", net, n);
    }

    /** updateEditorPicks: a write of the given picks to the master; its URL ends in "?". */
    method UpdateEditorPicks<T>(net: Network<T>, n: nat) returns (r: Outcome<()>, next: nat)
      requires Valid()
      modifies this
      ensures Valid() && masterAddress == old(masterAddress) && slaveAddresses == old(slaveAddresses)
      ensures next == n + 1
      ensures net.send(n, Request(masterAddress, UPDATEEDITORPICKS, "?")).Delivered? ==>
        r == Value(()) && snapshotId == net.send(n, Request(masterAddress, UPDATEEDITORPICKS, "?")).reply.snapshotId
      ensures !net.send(n, Request(masterAddress, UPDATEEDITORPICKS, "?")).Delivered? ==> r.Threw? && snapshotId == old(snapshotId)
    {
      r, next := WriteToMaster(UPDATEEDITORPICKS, "?", net, n);
    }

    /** removeAllBooks: a write to the master. */
    method RemoveAllBooks<T>(net: Network<T>, n: nat) returns (r: Outcome<()>, next: nat)
      requires Valid()
      modifies this
      ensures Valid() && masterAddress == old(masterAddress) && slaveAddresses == old(slaveAddresses)
      ensures next == n + 1
      ensures net.send(n, Request(masterAddress, REMOVEALLBOOKS, "")).Delivered? ==>
        r == Value(()) && snapshotId == net.send(n, Request(masterAddress, REMOVEALLBOOKS, "")).reply.snapshotId
      ensures !net.send(n, Request(masterAddress, REMOVEALLBOOKS, "")).Delivered? ==> r.Threw? && snapshotId == old(snapshotId)
    {
      r, next := WriteToMaster(REMOVEALLBOOKS, "", net, n);
    }

    /** removeBooks: a write of the given ISBNs to the master. */
    method RemoveBooks<T>(net: Network<T>, n: nat) returns (r: Outcome<()>, next: nat)
      requires Valid()
      modifies this
      ensures Valid() && masterAddress == old(masterAddress) && slaveAddresses == old(slaveAddresses)
      ensures next == n + 1
      ensures net.send(n, Request(masterAddress, REMOVEBOOKS, "")).Delivered? ==>
        r == Value(()) && snapshotId == net.send(n, Request(masterAddress, REMOVEBOOKS, "")).reply.snapshotId
      ensures !net.send(n, Request(masterAddress, REMOVEBOOKS, "")).Delivered? ==> r.Threw? && snapshotId == old(snapshotId)
    {
      r, next := WriteToMaster(REMOVEBOOKS, "", net, n);
    }

    /** getBooksInDemand is not implemented and always fails. */
    method GetBooksInDemand() returns (r: Outcome<seq<StockBook>>)
      ensures r == Threw(NotImplemented)
    {
      return Threw(NotImplemented);
    }
  }
}
