/** The server: received packets are queued, and processed into the player one by one. */
module Server {
  import opened Bytes
  import opened Fragmenter
  import opened Wire
  import opened Playback

  const RECEIVE_BUFFER_SIZE: nat := BLOCK_SIZE + HEADER_SIZE

  /** What the receive buffer holds of a datagram. */
  function Truncated(d: seq<Byte>): (r: seq<Byte>)
    ensures r <= d && |r| == if |d| <= 1024 + 16 then |d| else 1024 + 16
  {
    if |d| <= RECEIVE_BUFFER_SIZE then d else d[..RECEIVE_BUFFER_SIZE]
  }

  /** The block for the player from a processed packet; an encoded one yields a block only when the
      decoder recovered it. */
  function ProcessedBlock(p: Packet, decoded: Option<seq<Byte>>): Option<Block>
    requires p.RawPacket? ==> p.header.payloadSize <= |p.payload|
  {
    if p.RawPacket? then Some(BlockOf(p))
    else match decoded
      case None => None
      case Some(data) =>
        Some(Block(p.header.blockIndex, p.header.naluIndex, p.header.naluSize, Resized(data, p.header.payloadSize)))
  }

  /** The first `n` bytes, or all of them and zeros after. */
  function Resized(data: seq<Byte>, n: nat): (r: seq<Byte>)
    ensures |r| == n && forall i :: 0 <= i < n ==> r[i] == if i < |data| then data[i] else 0
  {
    if |data| >= n then data[..n] else data + Zeros(n - |data|)
  }

  /** A block sent in encoded packets is processed as that block, whichever of them is the one from which the
      decoder recovers its data, perhaps with more bytes after it. */
  lemma EncodedRoundTrip(b: Block, packetIndex: Byte, field: seq<Byte>, data: seq<Byte>)
    requires |b.data| <= BLOCK_SIZE && |field| == FIELD_SIZE && b.data <= data
    ensures var p := Parse(Datagram(RsPacket(
                       Header(1, packetIndex, |b.data|, b.blockIndex, b.naluIndex, b.naluBlockSize), field)));
            && p.Some? && p.value.RsPacket? && p.value.payload == field
            && ProcessedBlock(p.value, Some(data)) == Some(b) && ProcessedBlock(p.value, None) == None
  {
    ParseDatagram(RsPacket(Header(1, packetIndex, |b.data|, b.blockIndex, b.naluIndex, b.naluBlockSize), field));
    assert Resized(data, |b.data|) == b.data;
  }

  class PacketServer {
    const order: ByteOrder
    const player: Player
    var packetQueue: seq<Packet>
    var acceptedPackets: nat

    predicate Valid()
      reads this
    {
      forall k :: 0 <= k < |packetQueue| ==> Sound(packetQueue[k])
    }

    constructor (order: ByteOrder, player: Player)
      ensures Valid() && packetQueue == [] && acceptedPackets == 0
      ensures this.player == player && this.order == order
    {
      this.order, this.player := order, player;
      packetQueue, acceptedPackets := [], 0;
    }

    /** One arrival: the datagram, cut to the receive buffer, is queued if it is acceptable. */
    method Receive(datagram: seq<Byte>)
      requires Valid()
      modifies this
      ensures Valid()
      ensures packetQueue == old(packetQueue) + match Parse(Truncated(datagram)) { case Some(p) => [p] case None => [] }
      ensures acceptedPackets == old(acceptedPackets) + |packetQueue| - |old(packetQueue)|
    {
      var received := Truncated(datagram);
      var packet := Decompose(order, Some(received), |received|);
      assert received[..|received|] == received;
      if packet.None? {
        return;
      }
      acceptedPackets := acceptedPackets + 1;
      packetQueue := packetQueue + [packet.value];
    }

    /** Takes the packet at the front. `decoded` is what the decoder makes of it if it is encoded. */
    method Process(decoded: Option<seq<Byte>>)
      requires Valid() && packetQueue != []
      modifies this, player
      ensures Valid() && packetQueue == old(packetQueue)[1..] && acceptedPackets == old(acceptedPackets)
      ensures player.View() == match ProcessedBlock(old(packetQueue)[0], decoded)
                               { case Some(b) => BlockAdded(old(player.View()), b) case None => old(player.View()) }
      ensures old(packetQueue)[0].RawPacket? ==>
                var p, h := old(packetQueue)[0], old(packetQueue)[0].header;
                player.View() == BlockAdded(old(player.View()),
                                   Block(h.blockIndex, h.naluIndex, h.naluSize, p.payload[..h.payloadSize]))
      ensures old(packetQueue)[0].RsPacket? && decoded.Some? ==>
                var h := old(packetQueue)[0].header;
                player.View() == BlockAdded(old(player.View()),
                                   Block(h.blockIndex, h.naluIndex, h.naluSize, Resized(decoded.value, h.payloadSize)))
      ensures old(packetQueue)[0].RsPacket? && decoded.None? ==> player.View() == old(player.View())
    {
      var packet := packetQueue[0];
      packetQueue := packetQueue[1..];
      var h := packet.header;
      if packet.RawPacket? {
        player.AddBlock(h.blockIndex, h.naluIndex, h.naluSize, packet.payload[..h.payloadSize]);
      } else if decoded.Some? {
        player.AddBlock(h.blockIndex, h.naluIndex, h.naluSize, Resized(decoded.value, h.payloadSize));
      }
    }
  }
}
