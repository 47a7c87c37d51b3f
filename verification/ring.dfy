/** An abstract bounded byte FIFO standing in for the RTOS ring buffer the
    session uses. Only the documented behaviour of the two library calls is
    modelled: a put copies as many bytes as still fit and reports how many,
    a get hands out as many bytes as are stored (up to the request) and
    reports how many. Locking is left out: every call is atomic. */
module RingBuffer {
  import opened Protocol

  datatype Ring = Ring(capacity: nat, contents: seq<byte>) {

    predicate Valid()
    {
      |contents| <= capacity
    }

    /** Free space in bytes. */
    function Space(): (s: nat)
      requires Valid()
    {
      capacity - |contents|
    }
  }

  /** A ring of the given capacity holding nothing. */
  function EmptyRing(capacity: nat): (r: Ring)
    ensures r.Valid() && r.capacity == capacity && r.contents == []
  {
    Ring(capacity, [])
  }

  /** Library put: appends the longest prefix of `data` that fits and returns
      how many bytes that was (a short count means a partial write). */
  function Put(r: Ring, data: seq<byte>): (res: (Ring, nat))
    requires r.Valid()
    ensures res.1 == Min(|data|, r.Space())
    ensures res.0.Valid() && res.0.capacity == r.capacity
    ensures res.0.contents == r.contents + data[..res.1]
  {
    var n := Min(|data|, r.Space());
    (r.(contents := r.contents + data[..n]), n)
  }

  /** Library get: removes and returns the oldest `n` bytes, or all stored
      bytes when fewer are there. */
  function Get(r: Ring, n: nat): (res: (Ring, seq<byte>))
    requires r.Valid()
    ensures |res.1| == Min(n, |r.contents|)
    ensures r.contents == res.1 + res.0.contents
    ensures res.0.Valid() && res.0.capacity == r.capacity
  {
    var k := Min(n, |r.contents|);
    (r.(contents := r.contents[k..]), r.contents[..k])
  }
}
