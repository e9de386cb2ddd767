/**
 * Point-to-point messages between the coordinator and a worker. A send hands
 * over a copy of a contiguous run of pixels; a receive copies the matched
 * message into the receiver's buffer. A receive whose element count differs
 * from the message's is a fatal mismatch, so `Receive` demands that they agree:
 * every call site proves that the two sides computed the same count.
 */
module Transport {
  import opened Pixels

  /** The message a send of `count` pixels starting at `offset` of `src` carries. */
  function Send(src: seq<Color>, offset: nat, count: nat): (msg: seq<Color>)
    requires offset + count <= |src|
    ensures |msg| == count
    ensures forall j {:trigger msg[j]} :: 0 <= j < count ==> msg[j] == src[offset + j]
  {
    src[offset..offset + count]
  }

  /** A receive of `count` pixels into `dst` at `offset`; nothing else in `dst` changes. */
  method Receive(dst: array<Color>, offset: nat, msg: seq<Color>, count: nat)
    requires |msg| == count
    requires offset + count <= dst.Length
    modifies dst
    ensures dst[..] == old(dst[..])[..offset] + msg + old(dst[..])[offset + count..]
  {
    ghost var before := dst[..];
    for j := 0 to count
      invariant forall k :: 0 <= k < dst.Length ==>
        dst[k] == if offset <= k < offset + j then msg[k - offset] else before[k]
    {
      dst[offset + j] := msg[j];
    }
    ghost var after := before[..offset] + msg + before[offset + count..];
    assert forall k :: 0 <= k < dst.Length ==> dst[k] == after[k];
  }

  /**
   * Receiving the next `|msg|` pixels of `want` right after a prefix that
   * already agrees with `want` extends that prefix by the message, and leaves
   * everything after the message as it was.
   */
  lemma ReceivedPrefix(before: seq<Color>, after: seq<Color>, want: seq<Color>, offset: nat, msg: seq<Color>)
    requires |before| == |want| && offset + |msg| <= |want|
    requires before[..offset] == want[..offset]
    requires msg == want[offset..offset + |msg|]
    requires after == before[..offset] + msg + before[offset + |msg|..]
    ensures after[..offset + |msg|] == want[..offset + |msg|]
    ensures after[offset + |msg|..] == before[offset + |msg|..]
  {
    forall k | 0 <= k < offset + |msg|
      ensures after[k] == want[k]
    {
      if k < offset {
        assert after[k] == before[..offset][k];
      } else {
        assert after[k] == msg[k - offset];
      }
    }
  }
}
