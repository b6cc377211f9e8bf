/**
 * The server's receive-and-reply loop (`run_server` after the group is
 * joined): receive into a 1500-byte buffer, and answer every datagram with
 * "ACK:" followed by the bytes received, sent to the datagram's source.
 * The socket is left out: a run of the loop is given as the sequence of
 * outcomes of `recv_from`.
 */
module Server {
  import opened Bytes
  import opened Wrappers

  /** "ACK:" */
  const AckPrefix: Bytes := [65, 67, 75, 58]

  /** The size of the receive buffer, `vec![0u8; 1500]`. */
  const BufferSize: nat := 1500

  /** A datagram the program sends: its payload and where it goes. */
  datatype Datagram<Addr> = Datagram(payload: Bytes, dest: Addr)

  /** One outcome of `recv_from`: a datagram with its source, or an error. */
  datatype RecvEvent<Addr> = Received(data: Bytes, src: Addr) | RecvFailed

  /** The reply to a received payload. */
  function AckReply(payload: Bytes): (reply: Bytes) {
    AckPrefix + payload
  }

  /** The payload a reply echoes, for a text that starts with "ACK:". */
  function EchoedPayload(reply: Bytes): (r: Option<Bytes>)
    ensures r.Some? ==> AckReply(r.value) == reply
  {
    if |reply| >= |AckPrefix| && reply[..|AckPrefix|] == AckPrefix then Some(reply[|AckPrefix|..]) else None
  }

  /** A reply is the prefix and then the whole payload: four bytes longer,
      and the payload can be read back from it. */
  lemma AckReplyEchoes(payload: Bytes)
    ensures |AckReply(payload)| == |payload| + 4
    ensures EchoedPayload(AckReply(payload)) == Some(payload)
  {
  }

  /** What `recv_from` leaves in the buffer of a datagram: a datagram longer
      than the buffer is cut to the buffer's size. */
  function Truncated(data: Bytes): (r: Bytes)
    ensures |r| <= BufferSize
    ensures |data| <= BufferSize ==> r == data
    ensures |data| > BufferSize ==> r == data[..BufferSize]
  {
    if |data| <= BufferSize then data else data[..BufferSize]
  }

  /** `run_server`'s loop over a run of `recv_from` outcomes: every received
      datagram is answered, in order, with "ACK:" and the (truncated) bytes
      received, sent to its source address; an error of `recv_from` leaves
      the loop (the `?` returns it from `run_server`). */
  method Serve<Addr>(events: seq<RecvEvent<Addr>>) returns (replies: seq<Datagram<Addr>>, failed: bool)
    ensures |replies| <= |events|
    ensures forall i :: 0 <= i < |replies| ==> events[i].Received?
    ensures forall i :: 0 <= i < |replies| ==>
      replies[i] == Datagram(AckReply(Truncated(events[i].data)), events[i].src)
    ensures forall i :: 0 <= i < |replies| ==> |replies[i].payload| <= BufferSize + |AckPrefix|
    ensures failed <==> |replies| < |events|
    ensures failed ==> events[|replies|].RecvFailed?
  {
    var buf := new uint8[BufferSize];
    replies := [];
    failed := false;
    var i := 0;
    while i < |events|
      invariant 0 <= i <= |events| && |replies| == i && buf.Length == BufferSize
      invariant forall j :: 0 <= j < i ==> events[j].Received?
      invariant forall j :: 0 <= j < i ==>
        replies[j] == Datagram(AckReply(Truncated(events[j].data)), events[j].src)
      invariant forall j :: 0 <= j < i ==> |replies[j].payload| <= BufferSize + |AckPrefix|
    {
      match events[i]
      case RecvFailed =>
        failed := true;
        return;
      case Received(data, src) =>
        // recv_from: copy what fits into the buffer
        var len := if |data| < buf.Length then |data| else buf.Length;
        forall j | 0 <= j < len {
          buf[j] := data[j];
        }
        var payload := buf[..len];
        assert payload == Truncated(data);
        // the spawned reply task
        var out := AckPrefix + payload;
        replies := replies + [Datagram(out, src)];
        i := i + 1;
    }
  }
}
