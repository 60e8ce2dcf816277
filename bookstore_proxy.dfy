/**
 * The customer-side client of a replicated store
 * (ReplicationAwareBookStoreHTTPProxy): reads go to a randomly chosen
 * replica, writes to the master, failed slaves are dropped, and reads are
 * retried until the reply is at least as recent as the last one seen.
 */
module BookStoreProxy {
  import opened BookStoreTypes
  import opened ProxyCommon

  /**
   * The query getEditorPicks appends: "?" and the book-count parameter set
   * to numBooks; what follows the '=' reads back as numBooks.
   */
  function EditorPicksQuery(bookNumParam: string, numBooks: int): (r: string)
    ensures StartsWith(r, "?" + bookNumParam + "=")
    ensures ParseInteger(r[|bookNumParam| + 2..]) == numBooks
  {
    assert ("?" + bookNumParam + "=" + IntegerString(numBooks))[|bookNumParam| + 2..] == IntegerString(numBooks);
    "?" + bookNumParam + "=" + IntegerString(numBooks)
  }

  class ReplicationAwareBookStoreHTTPProxy {
    /** The slave set, held in its iteration order. */
    var slaveAddresses: seq<string>
    var masterAddress: string
    /** The snapshot id of the most recent reply this client accepted. */
    var snapshotId: int
    /** BookStoreConstants.BOOK_NUM_PARAM, the name of getEditorPicks' query parameter. */
    const bookNumParam: string

    ghost predicate Valid()
      reads this
    {
      Distinct(slaveAddresses) && HasHttpScheme(masterAddress)
    }

    /**
     * Initialise from the configured master and slave addresses (already
     * split): each gets "http://" unless it has it; the snapshot id is 0.
     */
    constructor(master: string, slaves: seq<string>, bookNumParam: string)
      ensures Valid()
      ensures masterAddress == WithHttpScheme(master)
      ensures slaveAddresses == AddressSet(slaves, WithHttpScheme)
      ensures snapshotId == 0 && this.bookNumParam == bookNumParam
    {
      masterAddress := WithHttpScheme(master);
      var collected := CollectAddresses(slaves, WithHttpScheme);
      slaveAddresses := collected;
      snapshotId := 0;
      this.bookNumParam := bookNumParam;
    }

    /** markReplicaServerFaulty: drop an address from the slave set. */
    method MarkReplicaServerFaulty(address: string)
      requires Valid()
      modifies this
      ensures Valid()
      ensures slaveAddresses == Remove(old(slaveAddresses), address)
      ensures masterAddress == old(masterAddress) && snapshotId == old(snapshotId)
    {
      slaveAddresses := Remove(slaveAddresses, address);
    }

    /**
     * getReplicaAddress, given the number drawn from [0, |slaves|]: walk the
     * slave set to the num-th member; past its end, the master.
     */
    method GetReplicaAddress(num: int) returns (r: Replica)
      ensures r == SelectReplica(slaveAddresses, num)
    {
      r := WalkToReplica(slaveAddresses, num);
    }

    /**
     * One pass of sendToAvailableReplica's loop body, up to the handling of
     * the master: send to the master for a write, to a drawn replica for a
     * read; if the send meets a network failure and the address is in the
     * slave set, mark it faulty.
     */
    method TryReplica<T>(tag: MessageTag, arg: string, net: Network<T>, n: nat)
      returns (replica: Replica, address: string, outcome: SendOutcome<T>)
      requires Valid()
      modifies this
      ensures Valid() && masterAddress == old(masterAddress) && snapshotId == old(snapshotId)
      ensures IsWriteOperation(tag) ==> replica == Master
      ensures !IsWriteOperation(tag) ==> replica == SelectReplica(old(slaveAddresses), net.draw(n))
      ensures address == AddressOf(replica, masterAddress)
      ensures address == masterAddress || address in old(slaveAddresses)
      ensures outcome == net.send(n, Request(address, tag, arg))
      ensures outcome.NetworkFailure? ==> slaveAddresses == Remove(old(slaveAddresses), address)
      ensures !outcome.NetworkFailure? ==> slaveAddresses == old(slaveAddresses)
    {
      if IsWriteOperation(tag) {
        replica := Master;
      } else {
        replica := GetReplicaAddress(net.draw(n));
      }
      address := AddressOf(replica, masterAddress);
      outcome := net.send(n, Request(address, tag, arg));
      if outcome.NetworkFailure? && address in slaveAddresses {
        MarkReplicaServerFaulty(address);
      }
    }

    /**
     * sendToAvailableReplica from the n-th send on. Besides the result and
     * the index of the next send it returns (ghost) the addresses whose
     * sends met a network failure, in order, and the address that answered
     * when one did: the loop stops at the first send that is answered. Every
     * send went to the master or to a slave; a write goes to the master
     * only, once. Its own exceptions: "Master server not available" when a
     * write's send fails, "Service not available" once no slave is left and
     * the master has failed. The slave set it leaves is the old one without
     * the addresses that failed.
     */
    method SendToAvailableReplica<T>(tag: MessageTag, arg: string, net: Network<T>, n: nat)
      returns (result: SendResult<T>, next: nat, ghost failed: seq<string>, ghost answerer: string)
      requires Valid()
      modifies this
      ensures Valid()
      ensures masterAddress == old(masterAddress) && snapshotId == old(snapshotId)
      ensures next == n + |failed| + (if result.Received? || result.Relayed? then 1 else 0)
      ensures forall k :: 0 <= k < |failed| ==> net.send(n + k, Request(failed[k], tag, arg)).NetworkFailure?
      ensures result.Received? ==> net.send(n + |failed|, Request(answerer, tag, arg)) == Delivered(result.reply)
      ensures result.Relayed? ==> net.send(n + |failed|, Request(answerer, tag, arg)) == Rejected(result.error)
      ensures forall k :: 0 <= k < |failed| ==> failed[k] == masterAddress || failed[k] in old(slaveAddresses)
      ensures result.Received? || result.Relayed? ==> answerer == masterAddress || answerer in old(slaveAddresses)
      ensures forall a :: a in slaveAddresses <==> a in old(slaveAddresses) && a !in failed
      ensures IsWriteOperation(tag) ==>
        (failed == [] && (result.Received? || result.Relayed? || result.OutOfAttempts?) &&
          (result.Received? || result.Relayed? ==> answerer == masterAddress)) ||
        (failed == [masterAddress] && result == Raised(MasterNotAvailable))
      ensures result.Raised? ==>
        (result.error == ServiceNotAvailable && !IsWriteOperation(tag) && slaveAddresses == [] && masterAddress in failed) ||
        (result.error == MasterNotAvailable && IsWriteOperation(tag))
      ensures result.OutOfAttempts? ==> net.limit <= next
      ensures failed != [] || result.Received? || result.Relayed? ==> next <= net.limit
    {
      var masterIsUp := true;
      next := n;
      failed, answerer := [], masterAddress;
      while |slaveAddresses| > 0 || masterIsUp
        invariant Valid() && masterAddress == old(masterAddress) && snapshotId == old(snapshotId)
        invariant next == n + |failed|
        invariant failed != [] ==> next <= net.limit
        invariant forall k :: 0 <= k < |failed| ==> net.send(n + k, Request(failed[k], tag, arg)).NetworkFailure?
        invariant forall k :: 0 <= k < |failed| ==> failed[k] == masterAddress || failed[k] in old(slaveAddresses)
        invariant forall a :: a in slaveAddresses <==> a in old(slaveAddresses) && a !in failed
        invariant IsWriteOperation(tag) ==> failed == []
        invariant !masterIsUp ==> masterAddress in failed
        decreases net.limit - next
      {
        if next >= net.limit {
          return OutOfAttempts, next, failed, answerer;
        }
        var replica, address, outcome := TryReplica(tag, arg, net, next);
        match outcome
        case Delivered(reply) =>
          return Received(reply), next + 1, failed, address;
        case Rejected(e) =>
          return Relayed(e), next + 1, failed, address;
        case NetworkFailure =>
          failed := failed + [address];
          next := next + 1;
          if replica.Master? {
            masterIsUp := false;
            if IsWriteOperation(tag) {
              return Raised(MasterNotAvailable), next, failed, answerer;
            }
          }
      }
      return Raised(ServiceNotAvailable), next, failed, answerer;
    }

    /**
     * The do-while of the reads: send until a reply is at least as recent
     * as the stored snapshot id, then store the reply's id and return its
     * list. It returns, besides the outcome and the next send's index, the
     * send whose reply or exception ended it (ghost): a value comes from a
     * reply no older than the last one accepted, and the stored id never
     * decreases and changes only when a value is returned.
     */
    method ReadFresh<T>(tag: MessageTag, arg: string, net: Network<T>, n: nat)
      returns (r: Outcome<seq<T>>, next: nat, ghost at: nat, ghost address: string)
      requires Valid() && !IsWriteOperation(tag)
      modifies this
      ensures Valid() && masterAddress == old(masterAddress)
      ensures forall a :: a in slaveAddresses ==> a in old(slaveAddresses)
      ensures n <= next
      ensures snapshotId >= old(snapshotId)
      ensures !r.Value? ==> snapshotId == old(snapshotId)
      ensures r.Value? ==>
        && n <= at < next <= net.limit
        && (address == masterAddress || address in old(slaveAddresses))
        && net.send(at, Request(address, tag, arg)) == Delivered(Reply(snapshotId, r.value))
      ensures r.Threw? ==>
        r.error == ServiceNotAvailable ||
        (n <= at < next && net.send(at, Request(address, tag, arg)) == Rejected(r.error))
    {
      next := n;
      at, address := n, masterAddress;
      while true
        invariant Valid() && masterAddress == old(masterAddress) && snapshotId == old(snapshotId)
        invariant forall a :: a in slaveAddresses ==> a in old(slaveAddresses)
        invariant n <= next
        decreases net.limit - next
      {
        var result, after, failed, answerer := SendToAvailableReplica(tag, arg, net, next);
        match result
        case Received(reply) =>
          if reply.snapshotId >= snapshotId {
            snapshotId := reply.snapshotId;
            return Value(reply.resultList), after, next + |failed|, answerer;
          }
          next := after;
        case Raised(e) =>
          return Threw(e), after, at, address;
        case Relayed(e) =>
          return Threw(e), after, next + |failed|, answerer;
        case OutOfAttempts =>
          return Exhausted, after, at, address;
      }
    }

    /** getBooks: a read of the store's books, retried until fresh. */
    method GetBooks(net: Network<Book>, n: nat)
      returns (r: Outcome<seq<Book>>, next: nat, ghost at: nat, ghost address: string)
      requires Valid()
      modifies this
      ensures Valid() && masterAddress == old(masterAddress)
      ensures snapshotId >= old(snapshotId) && (!r.Value? ==> snapshotId == old(snapshotId))
      ensures r.Value? ==>
        && (address == masterAddress || address in old(slaveAddresses))
        && net.send(at, Request(address, GETBOOKS, "")) == Delivered(Reply(snapshotId, r.value))
    {
      r, next, at, address := ReadFresh(GETBOOKS, "", net, n);
    }

    /** getEditorPicks: a read with the book count in the query, retried until fresh. */
    method GetEditorPicks(numBooks: int, net: Network<Book>, n: nat)
      returns (r: Outcome<seq<Book>>, next: nat, ghost at: nat, ghost address: string)
      requires Valid()
      modifies this
      ensures Valid() && masterAddress == old(masterAddress)
      ensures snapshotId >= old(snapshotId) && (!r.Value? ==> snapshotId == old(snapshotId))
      ensures r.Value? ==>
        && (address == masterAddress || address in old(slaveAddresses))
        && net.send(at, Request(address, EDITORPICKS, EditorPicksQuery(bookNumParam, numBooks)))
             == Delivered(Reply(snapshotId, r.value))
    {
      r, next, at, address := ReadFresh(EDITORPICKS, EditorPicksQuery(bookNumParam, numBooks), net, n);
    }

    /**
     * buyBooks: a write, so one send, to the master. On a reply the stored
     * snapshot id becomes the reply's (with no freshness check); a failed
     * send is "Master server not available"; a server's exception is
     * passed on.
     */
    method BuyBooks<T>(net: Network<T>, n: nat) returns (r: Outcome<()>, next: nat)
      requires Valid()
      modifies this
      ensures Valid() && masterAddress == old(masterAddress)
      ensures n < net.limit ==> next == n + 1
      ensures n < net.limit && net.send(n, Request(masterAddress, BUYBOOKS, "")).Delivered? ==>
        r == Value(()) && snapshotId == net.send(n, Request(masterAddress, BUYBOOKS, "")).reply.snapshotId
      ensures n < net.limit && net.send(n, Request(masterAddress, BUYBOOKS, "")).Rejected? ==>
        r == Threw(net.send(n, Request(masterAddress, BUYBOOKS, "")).error) && snapshotId == old(snapshotId)
      ensures n < net.limit && net.send(n, Request(masterAddress, BUYBOOKS, "")).NetworkFailure? ==>
        r == Threw(MasterNotAvailable) && snapshotId == old(snapshotId)
      ensures net.limit <= n ==> r == Exhausted && snapshotId == old(snapshotId)
    {
      var result;
      ghost var failed, answerer;
      result, next, failed, answerer := SendToAvailableReplica(BUYBOOKS, "", net, n);
      if result.Received? || result.Relayed? {
        assert failed == [] && answerer == masterAddress;
        assert net.send(n + |failed|, Request(answerer, BUYBOOKS, "")) == net.send(n, Request(masterAddress, BUYBOOKS, ""));
      } else if result.Raised? {
        assert failed == [masterAddress];
        assert net.send(n + 0, Request(failed[0], BUYBOOKS, "")).NetworkFailure?;
      } else {
        assert failed == [] && next == n;
      }
      match result
      case Received(reply) =>
        snapshotId := reply.snapshotId;
        r := Value(());
      case Raised(e) =>
        r := Threw(e);
      case Relayed(e) =>
        r := Threw(e);
      case OutOfAttempts =>
        r := Exhausted;
    }

    /** rateBooks is not implemented and always fails. */
    method RateBooks(bookRating: seq<BookRating>) returns (r: Outcome<()>)
      ensures r == Threw(NotImplemented)
    {
      return Threw(NotImplemented);
    }

    /** getTopRatedBooks is not implemented and always fails. */
    method GetTopRatedBooks(numBooks: int) returns (r: Outcome<seq<Book>>)
      ensures r == Threw(NotImplemented)
    {
      return Threw(NotImplemented);
    }
  }
}
