/** A peer: the registry of the replicas it holds, one per share address.
    Getters list the shares in ascending order; a replica is added only for
    a share not yet held, and removed only when it is the very instance
    held for its share. */
module Peers {
  import opened Common
  import opened Strings

  /** A replica, held by reference; only its share address matters here. */
  class Replica {
    const share: string

    constructor (share: string)
      ensures this.share == share
    {
      this.share := share;
    }
  }

  /** The message `addReplica` throws for a share already held. */
  function DuplicateMessage(share: string): string {
    "Peer.addReplica: already has a replica with share " + JsonString(share) + ".  Don't add another one."
  }

  class Peer {
    /** `replicaMap`. Its iteration order is never observed: every getter
        sorts the keys first. */
    var replicaMap: map<string, Replica>

    /** Each replica is held under its own share address. */
    ghost predicate Valid()
      reads this
    {
      forall s :: s in replicaMap ==> replicaMap[s].share == s
    }

    /** `new Peer()`: no replicas. */
    constructor ()
      ensures Valid() && replicaMap == map[]
    {
      replicaMap := map[];
    }

    /** `hasShare(share)`. */
    function HasShare(share: string): (b: bool)
      reads this
      ensures b <==> share in replicaMap
      ensures b <==> GetReplica(share).Some?
    {
      share in replicaMap
    }

    /** `shares()`: the held share addresses, ascending, each once. */
    function Shares(): (r: seq<string>)
      reads this
      ensures StrictlySorted(r)
      ensures forall s :: s in r <==> HasShare(s)
      ensures |r| == Size()
    {
      SortedKeys(replicaMap.Keys)
    }

    /** `replicas()`: the held replicas, in the order of their shares. */
    function Replicas(): (r: seq<Replica>)
      reads this
      ensures |r| == |Shares()|
      ensures forall i :: 0 <= i < |r| ==> GetReplica(Shares()[i]) == Some(r[i])
      ensures Valid() ==> forall i :: 0 <= i < |r| ==> r[i].share == Shares()[i]
    {
      var keys, m := Shares(), replicaMap;
      assert forall i :: 0 <= i < |keys| ==> keys[i] in m;
      seq(|keys|, i requires 0 <= i < |keys| && keys[i] in m => m[keys[i]])
    }

    /** `size()`: how many shares are held. */
    function Size(): (n: nat)
      reads this
      ensures n == |replicaMap.Keys|
    {
      |replicaMap|
    }

    /** `getReplica(share)`: the replica held for the share, if any. */
    function GetReplica(share: string): (r: Option<Replica>)
      reads this
      ensures r.Some? <==> share in replicaMap
      ensures r.Some? ==> r.value == replicaMap[share]
    {
      if share in replicaMap then Some(replicaMap[share]) else None
    }

    /** `addReplica(replica)`: refuses a second replica for a share;
        otherwise holds `replica` under its share and changes nothing
        else. */
    method AddReplica(replica: Replica) returns (r: Outcome)
      requires Valid()
      modifies this
      ensures Valid()
      ensures old(HasShare(replica.share)) ==>
        r == Fail(Thrown(DuplicateMessage(replica.share))) && replicaMap == old(replicaMap)
      ensures !old(HasShare(replica.share)) ==> r == Pass && replicaMap == old(replicaMap)[replica.share := replica]
      ensures !old(HasShare(replica.share)) ==> HasShare(replica.share) && GetReplica(replica.share) == Some(replica)
      ensures !old(HasShare(replica.share)) ==> Size() == old(Size()) + 1
      ensures forall s :: s != replica.share ==> GetReplica(s) == old(GetReplica(s))
    {
      if replica.share in replicaMap {
        return Fail(Thrown(DuplicateMessage(replica.share)));
      }
      replicaMap := replicaMap[replica.share := replica];
      return Pass;
    }

    /** `removeReplicaByShare(share)`: no replica is held for the share
        afterwards; every other share keeps its replica. */
    method RemoveReplicaByShare(share: string)
      requires Valid()
      modifies this
      ensures Valid()
      ensures replicaMap == old(replicaMap) - {share}
      ensures !HasShare(share)
      ensures forall s :: s != share ==> GetReplica(s) == old(GetReplica(s))
      ensures Size() == if old(HasShare(share)) then old(Size()) - 1 else old(Size())
    {
      replicaMap := replicaMap - {share};
    }

    /** `removeReplica(replica)`: removes the entry for the replica's share
        only when it holds this very instance; otherwise nothing changes. */
    method RemoveReplica(replica: Replica)
      requires Valid()
      modifies this
      ensures Valid()
      ensures old(GetReplica(replica.share)) == Some(replica) ==>
        replicaMap == old(replicaMap) - {replica.share}
      ensures old(GetReplica(replica.share)) != Some(replica) ==> replicaMap == old(replicaMap)
    {
      var existingReplica := GetReplica(replica.share);
      if existingReplica == Some(replica) {
        RemoveReplicaByShare(replica.share);
      }
    }
  }

  /** Two replicas of the same share are distinct instances: adding the
      second fails, and removing it leaves the first in place. */
  method SameShareScenario() returns (second: Outcome, stillHeld: bool, afterOwnRemoval: bool)
    ensures second == Fail(Thrown(DuplicateMessage("+gardening.abc")))
    ensures stillHeld && !afterOwnRemoval
  {
    var peer := new Peer();
    var a := new Replica("+gardening.abc");
    var b := new Replica("+gardening.abc");
    var first := peer.AddReplica(a);
    second := peer.AddReplica(b);
    peer.RemoveReplica(b);
    stillHeld := peer.GetReplica("+gardening.abc") == Some(a);
    peer.RemoveReplica(a);
    afterOwnRemoval := peer.HasShare("+gardening.abc");
  }
}
