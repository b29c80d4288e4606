/** The client in raw mode: read a block, compose its packet, send it, until nothing is read. */
module Client {
  import opened Bytes
  import opened Fragmenter
  import opened Reader
  import opened Wire

  /** The datagrams sent for a list of blocks; one too large for a packet would be passed over. */
  function Datagrams(blocks: seq<Block>): seq<seq<Byte>> {
    if blocks == [] then []
    else
      var last := |blocks| - 1;
      Datagrams(blocks[..last])
      + if |blocks[last].data| <= BLOCK_SIZE then [Datagram(RawMessage(blocks[last]))] else []
  }

  lemma DatagramsSnoc(blocks: seq<Block>, b: Block)
    ensures Datagrams(blocks + [b])
         == Datagrams(blocks) + if |b.data| <= BLOCK_SIZE then [Datagram(RawMessage(b))] else []
  {
    assert (blocks + [b])[..|blocks|] == blocks;
  }

  predicate Fits(blocks: seq<Block>) {
    forall b :: b in blocks ==> |b.data| <= BLOCK_SIZE
  }

  lemma {:induction false} RemainderFits(nalu: seq<Byte>, offset: nat, index: U32)
    ensures Fits(Remainder(nalu, offset, index))
    decreases |nalu| - offset
  {
    if offset < |nalu| {
      var n := if |nalu| - offset < BLOCK_SIZE then |nalu| - offset else BLOCK_SIZE;
      RemainderFits(nalu, offset + n, index);
    }
  }

  /** No block the reader hands out is too large. */
  lemma {:induction false} EmissionFits(nalus: seq<seq<Byte>>, index: U32)
    ensures Fits(Emission(nalus, index))
  {
    if nalus != [] {
      RemainderFits(nalus[0], 0, index);
      EmissionFits(nalus[1..], NextIndex(index));
    }
  }

  lemma {:induction false} DatagramsOfFitting(blocks: seq<Block>)
    requires Fits(blocks)
    ensures |Datagrams(blocks)| == |blocks|
    ensures forall k :: 0 <= k < |blocks| ==>
              |blocks[k].data| <= BLOCK_SIZE && Datagrams(blocks)[k] == Datagram(RawMessage(blocks[k]))
  {
    if blocks != [] {
      var last := |blocks| - 1;
      DatagramsOfFitting(blocks[..last]);
    }
  }

  lemma TakeOne<T>(all: seq<T>, k: nat, x: T, rest: seq<T>)
    requires k < |all| && x == all[k..][0] && rest == all[k..][1..]
    ensures all[..k + 1] == all[..k] + [x] && all[k + 1..] == rest
  {
  }

  /** Composes the packet of a block the reader handed out, as the bytes to be sent. */
  method ComposeBlock(order: ByteOrder, block: Block, bytesRead: U16) returns (datagram: Option<seq<Byte>>)
    requires |block.data| == bytesRead
    ensures datagram == if bytesRead <= BLOCK_SIZE then Some(Datagram(RawMessage(block))) else None
  {
    var packet := ComposeRaw(order, block.blockIndex, block.naluIndex, block.naluBlockSize,
                             Some(block.data), bytesRead);
    assert block.data[..bytesRead] == block.data;
    datagram := if packet.None? then None else Some(Image(order, packet.value));
  }

  /** Ends for every source, having sent the datagrams of all blocks the reader had to give, in order. */
  method ReaderThread(reader: StreamReader, order: ByteOrder) returns (sent: seq<seq<Byte>>)
    requires reader.Valid()
    modifies reader
    ensures reader.Valid()
    ensures sent == Datagrams(old(reader.Pending()))
  {
    ghost var all, k := reader.Pending(), 0;
    sent := [];
    var block := Block(0, 0, 0, Zeros(BLOCK_SIZE));
    while true
      invariant reader.Valid() && k <= |all| && all[k..] == reader.Pending()
      invariant sent == Datagrams(all[..k])
      decreases |reader.Pending()|
    {
      var bytesRead;
      bytesRead, block := reader.ReadTo(block);
      if bytesRead == 0 {
        break;
      }
      TakeOne(all, k, block, reader.Pending());
      DatagramsSnoc(all[..k], block);
      k := k + 1;
      var datagram := ComposeBlock(order, block, bytesRead);
      if datagram.None? {
        continue;
      }
      sent := sent + [datagram.value];
    }
    assert all[..k] == all;
  }
}
