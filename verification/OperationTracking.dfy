/** Id allocation and the map of operations in flight. */
module OperationTracking {
  import opened Wrappers

  const U64_RANGE: nat := 0x1_0000_0000_0000_0000

  datatype OperationType = Read | Write | Accept | Send | Recv | ReadVectored | WriteVectored

  /** `buffer` names the owned buffer given to the operation, if any. */
  datatype OperationHandle = OperationHandle(id: nat, opType: OperationType, fd: int, buffer: Option<nat>)

  /** The id handed to the `k`-th registration: counting starts at 1 and wraps at 64 bits. */
  function IdOf(k: nat): (id: nat)
    ensures id < U64_RANGE
  {
    (k + 1) % U64_RANGE
  }

  lemma IdsAreDistinct(j: nat, k: nat)
    requires j < k < U64_RANGE
    ensures IdOf(j) != IdOf(k)
  {
  }

  /** Wrap-around reuses the first id after exactly 2^64 registrations. */
  lemma IdsWrapAround(k: nat)
    ensures IdOf(k + U64_RANGE) == IdOf(k)
  {
  }

  class OperationTracker {
    var inFlight: map<nat, OperationHandle>
    var nextId: nat

    constructor ()
      ensures inFlight == map[] && nextId == IdOf(0)
    {
      inFlight := map[];
      nextId := 1;
    }

    method RegisterOperation(opType: OperationType, fd: int, buffer: Option<nat>) returns (id: nat)
      modifies this
      ensures id == old(nextId) && nextId == (id + 1) % U64_RANGE
      ensures inFlight == old(inFlight)[id := OperationHandle(id, opType, fd, buffer)]
    {
      id := nextId;
      nextId := (nextId + 1) % U64_RANGE;
      inFlight := inFlight[id := OperationHandle(id, opType, fd, buffer)];
    }

    method CompleteOperation(id: nat) returns (handle: Option<OperationHandle>)
      modifies this`inFlight
      ensures handle == if id in old(inFlight) then Some(old(inFlight)[id]) else None
      ensures inFlight == old(inFlight) - {id}
    {
      handle := if id in inFlight then Some(inFlight[id]) else None;
      inFlight := inFlight - {id};
    }

    predicate IsOperationTracked(id: nat)
      reads this
    {
      id in inFlight
    }

    predicate HasOperations()
      reads this
    {
      inFlight != map[]
    }
  }
}
