/**
 * One replication of a request to one replica
 * (CertainBookStoreReplicationTask): call the replica's replicate and report
 * whether it returned normally.
 */
module ReplicationTasks {
  import opened BookStoreTypes

  /** The report of one replication (ReplicationResult). */
  datatype ReplicationResult = ReplicationResult(serverAddress: string, replicationSuccessful: bool)

  /** The client the master holds for one replica: a proxy to its address. */
  datatype ReplicationClient = ServerProxy(address: string)

  /**
   * How a replicate call on a replica ended. Replication.replicate declares
   * both BookStoreException and NetworkException.
   */
  datatype ReplicateOutcome =
    | Returned
    | ThrewBookStoreException(error: Error)
    | ThrewNetworkException

  /** The remote call, supplied by the caller: the outcome of replicate(request) on a client. */
  type Replicate = (ReplicationClient, ReplicationRequest) -> ReplicateOutcome

  datatype ReplicationTask = ReplicationTask(
    client: ReplicationClient,
    request: ReplicationRequest,
    destination: string)
  {
    /**
     * call: invoke replicate with the stored request once; a
     * BookStoreException is absorbed into an unsuccessful result, a
     * NetworkException is not caught and escapes the call.
     */
    function Call(replicate: Replicate): (r: Result<ReplicationResult>)
      ensures r.Err? <==> replicate(client, request).ThrewNetworkException?
      ensures r.Err? ==> r.error == NetworkError
      ensures r.Ok? ==> r.value.serverAddress == destination
      ensures r.Ok? ==> (r.value.replicationSuccessful <==> replicate(client, request).Returned?)
    {
      match replicate(client, request)
      case Returned => Ok(ReplicationResult(destination, true))
      case ThrewBookStoreException(_) => Ok(ReplicationResult(destination, false))
      case ThrewNetworkException => Err(NetworkError)
    }
  }
}
