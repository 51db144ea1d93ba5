/** The receiving end of a connection: the bytes still to come and, separately, how the
    network happens to cut them into reads. */
module NetStream {
  import opened Common

  class Stream {
    /** Everything the peer will still send before it closes the connection. */
    var rest: Bytes
    /** How many bytes each coming read brings; when used up, a read brings all it can. */
    var cuts: seq<nat>

    constructor (wire: Bytes, cuts: seq<nat>)
      ensures rest == wire && this.cuts == cuts
    {
      rest := wire;
      this.cuts := cuts;
    }

    /** `read`: some of the next bytes, at most `max`; none only at the end of the stream.
        Callers learn nothing about where the cuts are. */
    method Read(max: nat) returns (data: Bytes)
      requires max > 0
      modifies this
      ensures old(rest) == data + rest
      ensures |data| <= max
      ensures data == [] <==> old(rest) == []
    {
      var n := if max < |rest| then max else |rest|;
      if cuts != [] {
        if 0 < cuts[0] < n { n := cuts[0]; }
        cuts := cuts[1..];
      }
      data := rest[..n];
      rest := rest[n..];
    }
  }
}
