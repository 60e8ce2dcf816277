/**
 * The master's replicator (CertainBookStoreReplicator): a map from replica
 * address to replication client, a fan-out of every request to every
 * registered replica, and the permanent removal of faulty replicas.
 */
module Replicators {
  import opened BookStoreTypes
  import opened ReplicationTasks

  type Clients = map<string, ReplicationClient>

  /** A non-empty set of addresses has one to pick (what iterating a key set relies on). */
  lemma NonEmptyHasAddress(s: set<string>)
    requires |s| > 0
    ensures exists x :: x in s
  {
    if forall x :: x !in s {
      assert false;
    }
  }

  /** Every registered client is the proxy for its own address. */
  predicate ProxiesOwnAddress(clients: Clients)
  {
    forall a :: a in clients ==> clients[a] == ServerProxy(a)
  }

  /** One task per registered replica, each for that replica's client and the same request. */
  ghost predicate IsFanOut(clients: Clients, request: ReplicationRequest, tasks: seq<ReplicationTask>)
  {
    && |tasks| == |clients|
    && (forall i :: 0 <= i < |tasks| ==>
          tasks[i].destination in clients && tasks[i].client == clients[tasks[i].destination]
          && tasks[i].request == request)
    && (forall i, j :: 0 <= i < j < |tasks| ==> tasks[i].destination != tasks[j].destination)
    && (forall a :: a in clients ==> exists i :: 0 <= i < |tasks| && tasks[i].destination == a)
  }

  /**
   * markServersFaulty on a client map: for each listed server in turn, stop
   * and drop its client; a server without a client is a null dereference
   * that ends the call, leaving the servers before it removed.
   */
  function RemoveFaulty(clients: Option<Clients>, faulty: seq<string>): (r: (Option<Clients>, Status))
    ensures r.0.None? <==> clients.None?
    ensures r.0.Some? ==> r.0.value.Keys <= clients.value.Keys
    ensures r.0.Some? ==> forall a :: a in r.0.value ==> r.0.value[a] == clients.value[a]
    ensures r.1.Success? <==> (forall i :: 0 <= i < |faulty| ==>
      (clients.Some? && faulty[i] in clients.value && forall j :: 0 <= j < i ==> faulty[j] != faulty[i]))
    decreases |faulty|
  {
    if faulty == [] then (clients, Success)
    else if clients.None? || faulty[0] !in clients.value then (clients, Failure(NullReference))
    else
      var rest := RemoveFaulty(Some(clients.value - {faulty[0]}), faulty[1..]);
      assert rest.1.Success? <==> (forall i :: 1 <= i < |faulty| ==>
        (faulty[i] in clients.value - {faulty[0]} && forall j :: 1 <= j < i ==> faulty[j] != faulty[i]))
      by {
        assert forall i :: 1 <= i < |faulty| ==> faulty[1..][i - 1] == faulty[i];
      }
      rest
  }

  class CertainBookStoreReplicator {
    /** Address to replication client; None while the server set given was null. */
    var replicationClients: Option<Clients>

    ghost predicate Valid()
      reads this
    {
      replicationClients.Some? ==> ProxiesOwnAddress(replicationClients.value)
    }

    /**
     * Register one proxy client per slave server; a null server set leaves
     * the map unset. The thread-pool size is not modelled.
     */
    constructor(maxReplicatorThreads: int, slaveServers: Option<seq<string>>)
      ensures Valid()
      ensures slaveServers.None? ==> replicationClients.None?
      ensures slaveServers.Some? ==> (replicationClients.Some? &&
        replicationClients.value.Keys == set i | 0 <= i < |slaveServers.value| :: slaveServers.value[i])
    {
      if slaveServers.None? {
        replicationClients := None;
      } else {
        var clients := RegisterAll(slaveServers.value);
        replicationClients := Some(clients);
      }
    }

    /**
     * replicate: one task per registered destination, each carrying the
     * request. With the map unset, reading its key set is a null dereference.
     */
    method Replicate(request: ReplicationRequest) returns (r: Result<seq<ReplicationTask>>)
      ensures replicationClients.None? ==> r == Err(NullReference)
      ensures replicationClients.Some? ==> r.Ok? && IsFanOut(replicationClients.value, request, r.value)
    {
      if replicationClients.None? {
        return Err(NullReference);
      }
      var clients := replicationClients.value;
      var resultList: seq<ReplicationTask> := [];
      var remaining := clients.Keys;
      ghost var position: map<string, nat> := map[];
      while |remaining| > 0
        invariant remaining <= clients.Keys
        invariant |resultList| + |remaining| == |clients|
        invariant forall i :: 0 <= i < |resultList| ==>
          resultList[i].destination in clients && resultList[i].destination !in remaining
          && resultList[i].client == clients[resultList[i].destination] && resultList[i].request == request
        invariant forall i, j :: 0 <= i < j < |resultList| ==> resultList[i].destination != resultList[j].destination
        invariant forall a :: a in clients && a !in remaining ==>
          a in position && position[a] < |resultList| && resultList[position[a]].destination == a
        decreases remaining
      {
        NonEmptyHasAddress(remaining);
        var destination :| destination in remaining;
        position := position[destination := |resultList|];
        resultList := resultList + [ReplicationTask(clients[destination], request, destination)];
        remaining := remaining - {destination};
      }
      forall a | a in clients ensures exists i :: 0 <= i < |resultList| && resultList[i].destination == a {
        assert resultList[position[a]].destination == a;
      }
      return Ok(resultList);
    }

    /** markServersFaulty: drop each listed server's client; a null list changes nothing. */
    method MarkServersFaulty(faultyServers: Option<seq<string>>) returns (s: Status)
      requires Valid()
      modifies this
      ensures Valid()
      ensures faultyServers.None? ==> replicationClients == old(replicationClients) && s == Success
      ensures faultyServers.Some? ==>
        (replicationClients, s) == RemoveFaulty(old(replicationClients), faultyServers.value)
    {
      if faultyServers.None? {
        return Success;
      }
      var faulty := faultyServers.value;
      var i := 0;
      while i < |faulty|
        invariant 0 <= i <= |faulty|
        invariant Valid()
        invariant RemoveFaulty(replicationClients, faulty[i..]) == RemoveFaulty(old(replicationClients), faulty)
      {
        assert faulty[i..][1..] == faulty[i + 1..];
        if replicationClients.None? || faulty[i] !in replicationClients.value {
          return Failure(NullReference);
        }
        replicationClients := Some(replicationClients.value - {faulty[i]});
        i := i + 1;
      }
      return Success;
    }
  }

  /** The constructor's loop: one proxy client per server address. */
  method RegisterAll(servers: seq<string>) returns (clients: Clients)
    ensures ProxiesOwnAddress(clients)
    ensures clients.Keys == set i | 0 <= i < |servers| :: servers[i]
  {
    clients := map[];
    var i := 0;
    while i < |servers|
      invariant 0 <= i <= |servers|
      invariant clients.Keys == set j | 0 <= j < i :: servers[j]
      invariant ProxiesOwnAddress(clients)
    {
      assert (set j | 0 <= j < i + 1 :: servers[j]) == (set j | 0 <= j < i :: servers[j]) + {servers[i]};
      clients := clients[servers[i] := ServerProxy(servers[i])];
      i := i + 1;
    }
  }

  /** The destinations whose replication did not report success, in task order. */
  function FailedDestinations(tasks: seq<ReplicationTask>, replicate: Replicate): (r: seq<string>)
    ensures forall j :: 0 <= j < |r| ==> exists i :: 0 <= i < |tasks| && tasks[i].destination == r[j]
    decreases |tasks|
  {
    if tasks == [] then []
    else
      var rest := FailedDestinations(tasks[1..], replicate);
      assert forall j :: 0 <= j < |rest| ==> exists i :: 1 <= i < |tasks| && tasks[i].destination == rest[j] by {
        forall j | 0 <= j < |rest| ensures exists i :: 1 <= i < |tasks| && tasks[i].destination == rest[j] {
          var i :| 0 <= i < |tasks[1..]| && tasks[1..][i].destination == rest[j];
          assert tasks[i + 1] == tasks[1..][i];
        }
      }
      var c := tasks[0].Call(replicate);
      if c.Ok? && c.value.replicationSuccessful then rest else [tasks[0].destination] + rest
  }

  /** A destination is listed as failed exactly when its task did not report success. */
  lemma {:induction false} FailedDestinationsExactly(tasks: seq<ReplicationTask>, replicate: Replicate, i: int)
    requires 0 <= i < |tasks|
    requires forall j, k :: 0 <= j < k < |tasks| ==> tasks[j].destination != tasks[k].destination
    ensures tasks[i].destination in FailedDestinations(tasks, replicate) <==>
      !(tasks[i].Call(replicate).Ok? && tasks[i].Call(replicate).value.replicationSuccessful)
    decreases |tasks|
  {
    var rest := FailedDestinations(tasks[1..], replicate);
    if i == 0 {
      forall j | 0 <= j < |rest| ensures rest[j] != tasks[0].destination {
        var k :| 0 <= k < |tasks[1..]| && tasks[1..][k].destination == rest[j];
        assert tasks[k + 1] == tasks[1..][k];
      }
    } else {
      FailedDestinationsExactly(tasks[1..], replicate, i - 1);
      assert tasks[1..][i - 1] == tasks[i];
    }
  }

  lemma {:induction false} FailedDestinationsDistinct(tasks: seq<ReplicationTask>, replicate: Replicate)
    requires forall j, k :: 0 <= j < k < |tasks| ==> tasks[j].destination != tasks[k].destination
    ensures forall j, k :: 0 <= j < k < |FailedDestinations(tasks, replicate)| ==>
      FailedDestinations(tasks, replicate)[j] != FailedDestinations(tasks, replicate)[k]
    decreases |tasks|
  {
    if tasks != [] {
      var rest := FailedDestinations(tasks[1..], replicate);
      FailedDestinationsDistinct(tasks[1..], replicate);
      forall j | 0 <= j < |rest| ensures rest[j] != tasks[0].destination {
        var k :| 0 <= k < |tasks[1..]| && tasks[1..][k].destination == rest[j];
        assert tasks[k + 1] == tasks[1..][k];
      }
    }
  }

  /** Removing distinct registered servers one by one leaves exactly the others. */
  lemma {:induction false} RemoveDistinctRegistered(clients: Clients, faulty: seq<string>)
    requires forall i :: 0 <= i < |faulty| ==> faulty[i] in clients
    requires forall i, j :: 0 <= i < j < |faulty| ==> faulty[i] != faulty[j]
    ensures RemoveFaulty(Some(clients), faulty) ==
      (Some(map a | a in clients && a !in faulty :: clients[a]), Success)
    decreases |faulty|
  {
    if faulty == [] {
      assert (map a | a in clients && a !in faulty :: clients[a]) == clients;
    } else {
      var smaller := clients - {faulty[0]};
      RemoveDistinctRegistered(smaller, faulty[1..]);
      assert (map a | a in smaller && a !in faulty[1..] :: smaller[a]) ==
        (map a | a in clients && a !in faulty :: clients[a]);
    }
  }

  /** A registered replica is among the failed destinations exactly when replicate on it did not return normally. */
  lemma FailedIffNotReturned(
    clients: Clients, request: ReplicationRequest, tasks: seq<ReplicationTask>, replicate: Replicate, a: string)
    requires IsFanOut(clients, request, tasks) && a in clients
    ensures a in FailedDestinations(tasks, replicate) <==> !replicate(clients[a], request).Returned?
  {
    var i :| 0 <= i < |tasks| && tasks[i].destination == a;
    FailedDestinationsExactly(tasks, replicate, i);
    assert tasks[i].client == clients[a] && tasks[i].request == request;
  }

  /** Every failed destination is a registered replica. */
  lemma FailedAreRegistered(
    clients: Clients, request: ReplicationRequest, tasks: seq<ReplicationTask>, replicate: Replicate)
    requires IsFanOut(clients, request, tasks)
    ensures forall j :: 0 <= j < |FailedDestinations(tasks, replicate)| ==> FailedDestinations(tasks, replicate)[j] in clients
  {
    var failed := FailedDestinations(tasks, replicate);
    forall j | 0 <= j < |failed| ensures failed[j] in clients {
      var i :| 0 <= i < |tasks| && tasks[i].destination == failed[j];
    }
  }

  /** The replicas that did not fail are those on which replicate returned normally. */
  lemma NotFailedAreHealthy(
    clients: Clients, request: ReplicationRequest, tasks: seq<ReplicationTask>, replicate: Replicate)
    requires IsFanOut(clients, request, tasks)
    ensures (map a | a in clients && a !in FailedDestinations(tasks, replicate) :: clients[a]) ==
      (map a | a in clients && replicate(clients[a], request).Returned? :: clients[a])
  {
    var failed := FailedDestinations(tasks, replicate);
    var kept := map a | a in clients && a !in failed :: clients[a];
    var healthy := map a | a in clients && replicate(clients[a], request).Returned? :: clients[a];
    forall a | a in clients ensures a in kept <==> a in healthy {
      FailedIffNotReturned(clients, request, tasks, replicate, a);
    }
    assert kept.Keys == healthy.Keys;
  }

  /**
   * Replicating a request to every registered replica and then marking the
   * replicas whose replication failed as faulty leaves registered exactly
   * the replicas on which replicate returned normally.
   */
  lemma FaultyRemovalKeepsHealthyReplicas(
    clients: Clients, request: ReplicationRequest, tasks: seq<ReplicationTask>, replicate: Replicate)
    requires IsFanOut(clients, request, tasks)
    ensures RemoveFaulty(Some(clients), FailedDestinations(tasks, replicate)) ==
      (Some(map a | a in clients && replicate(clients[a], request).Returned? :: clients[a]), Success)
  {
    var failed := FailedDestinations(tasks, replicate);
    FailedDestinationsDistinct(tasks, replicate);
    FailedAreRegistered(clients, request, tasks, replicate);
    RemoveDistinctRegistered(clients, failed);
    NotFailedAreHealthy(clients, request, tasks, replicate);
  }
}
