/** The allocator behind malloc and free, for buffers of bytes. */
module Arenas {
  import opened Bytes

  class Arena {
    ghost var live: set<array<byte>>

    constructor ()
      ensures live == {}
    {
      live := {};
    }

    method Malloc(n: nat) returns (p: array<byte>)
      modifies this
      ensures fresh(p) && p.Length == n && live == old(live) + {p}
    {
      p := new byte[n](_ => 0);
      live := live + {p};
    }

    /** A pointer is a buffer and a position in it.  Only a buffer in use may be freed, and only through
        the pointer to its first byte. */
    method Free(p: array<byte>, offset: int)
      requires p in live && offset == 0
      modifies this
      ensures live == old(live) - {p}
    {
      live := live - {p};
    }
  }
}
