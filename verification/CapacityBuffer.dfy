/** The bounded buffer for the output of a command (client/exec.go). */
module CapacityBuffer {
  import opened Wrappers

  class CapacityBuffer {
    var data: seq<byte>
    var hasOverflow: bool
    const capacity: nat

    constructor (capacity: nat)
      ensures this.capacity == capacity && Now() == Buffer([], false)
    {
      this.capacity, data, hasOverflow := capacity, [], false;
    }

    function Now(): Buffer
      reads this
    {
      Buffer(data, hasOverflow)
    }

    /** Keeps what fits; anything beyond is an error, of a write of no bytes. */
    method Write(p: seq<byte>) returns (n: nat, ok: bool)
      requires |data| <= capacity
      modifies this
      ensures |data| <= capacity
      ensures Now() == Written(old(Now()), capacity, p)
      ensures ok == (|old(data)| + |p| <= capacity)
      ensures n == if ok then |p| else 0
    {
      var freeCapacity := capacity - |data|;
      if |p| > freeCapacity {
        data := data + p[..freeCapacity];
        hasOverflow := true;
        return 0, false;
      }
      data := data + p;
      return |p|, true;
    }
  }

  datatype Buffer = Buffer(data: seq<byte>, hasOverflow: bool)

  function Written(b: Buffer, capacity: nat, p: seq<byte>): Buffer
    requires |b.data| <= capacity
  {
    if |p| > capacity - |b.data| then Buffer(b.data + p[..capacity - |b.data|], true)
    else b.(data := b.data + p)
  }

  function Run(capacity: nat, chunks: seq<seq<byte>>): (b: Buffer)
    ensures |b.data| <= capacity
  {
    if chunks == [] then Buffer([], false)
    else Written(Run(capacity, chunks[..|chunks| - 1]), capacity, chunks[|chunks| - 1])
  }

  function Output(chunks: seq<seq<byte>>): seq<byte> {
    if chunks == [] then [] else Output(chunks[..|chunks| - 1]) + chunks[|chunks| - 1]
  }

  /** After any writes the buffer holds the first `capacity` bytes of all that was written, and
      the overflow flag is set exactly when there was more. */
  lemma {:induction false} KeepsFirstBytes(capacity: nat, chunks: seq<seq<byte>>)
    ensures var all := Output(chunks);
            Run(capacity, chunks) ==
            Buffer(if |all| <= capacity then all else all[..capacity], |all| > capacity)
  {
    if chunks != [] {
      KeepsFirstBytes(capacity, chunks[..|chunks| - 1]);
    }
  }
}
