/** The stream reader: a growing buffer refilled from the demuxer, and a cursor in the current unit. */
module Reader {
  import opened Bytes
  import opened AnnexB
  import opened Fragmenter

  /** What one read from the demuxer yields: a packet's bytes, the end of the stream, or an error. */
  datatype ReadResult = Packet(data: seq<Byte>) | EndOfStream | ReadError

  /** The packets up to the first read that yields none. */
  function Packets(source: seq<ReadResult>): seq<seq<Byte>> {
    if source == [] || !source[0].Packet? then [] else [source[0].data] + Packets(source[1..])
  }

  /** The packets are those of the leading reads, up to the first one that is not a packet. */
  lemma {:induction false} PacketsLead(source: seq<ReadResult>)
    ensures var k := |Packets(source)|;
            && k <= |source|
            && (forall i :: 0 <= i < k ==> source[i] == Packet(Packets(source)[i]))
            && (k < |source| ==> !source[k].Packet?)
  {
    if source != [] && source[0].Packet? {
      PacketsLead(source[1..]);
      var ps := Packets(source[1..]);
      forall i | 0 <= i < |ps| + 1 ensures source[i] == Packet(Packets(source)[i]) {
        if i > 0 { assert source[1..][i - 1] == source[i] && Packets(source)[i] == ps[i - 1]; }
      }
      if |ps| + 1 < |source| { assert source[1..][|ps|] == source[|ps| + 1]; }
    }
  }

  lemma RefillBytes(buffer: seq<Byte>, packets: seq<seq<Byte>>)
    requires packets != []
    ensures (buffer + packets[0]) + Flatten(packets[1..]) == buffer + Flatten(packets)
  {
  }

  class StreamReader {
    var source: seq<ReadResult>  // reads to come; an exhausted source behaves as its end
    var streamBuffer: seq<Byte>
    var streamBufferOffset: nat
    var currentNalu: seq<Byte>
    var currentNaluOffset: nat
    var currentNaluIndex: U32

    /** The cursor is at a block boundary inside the current unit, or there is no current unit. */
    predicate Valid()
      reads this
    {
      && streamBufferOffset <= |streamBuffer|
      && currentNaluOffset % 1024 == 0
      && (if currentNalu == [] then currentNaluOffset == 0 else currentNaluOffset < |currentNalu|)
    }

    function Unread(): seq<Byte>
      requires Valid()
      reads this
    {
      streamBuffer[streamBufferOffset..]
    }

    /** The units the reader has not begun to hand out. */
    function Units(): seq<seq<Byte>>
      requires Valid()
      reads this
    {
      Nalus(Unread(), Packets(source))
    }

    /** The blocks the reader has still to hand out. */
    function Pending(): seq<Block>
      requires Valid()
      reads this
    {
      if currentNalu == [] then Emission(Units(), currentNaluIndex)
      else Remainder(currentNalu, currentNaluOffset, currentNaluIndex)
           + Emission(Units(), NextIndex(currentNaluIndex))
    }

    constructor Open(source: seq<ReadResult>)
      ensures Valid() && this.source == source
      ensures streamBuffer == [] && streamBufferOffset == 0
      ensures currentNalu == [] && currentNaluOffset == 0 && currentNaluIndex == 0
      ensures Unread() == [] && Pending() == Emission(Nalus([], Packets(source)), 0)
    {
      this.source := source;
      streamBuffer, streamBufferOffset := [], 0;
      currentNalu, currentNaluOffset, currentNaluIndex := [], 0, 0;
    }

    static method FindStartCode(buf: seq<Byte>, offset: nat) returns (p: Option<nat>)
      ensures p.None? ==> forall i: nat :: offset <= i ==> !StartCodeAt(buf, i)
      ensures p.Some? ==> offset <= p.value && StartCodeAt(buf, p.value)
      ensures p.Some? ==> forall i: nat :: offset <= i < p.value ==> !StartCodeAt(buf, i)
      ensures p == Find(buf, offset)
    {
      var i := offset;
      while i + 2 < |buf|
        invariant offset <= i
        invariant forall j: nat :: offset <= j < i ==> !StartCodeAt(buf, j)
      {
        if i + 3 < |buf| && buf[i] == 0 && buf[i + 1] == 0 && buf[i + 2] == 0 && buf[i + 3] == 1 {
          FindFrom(buf, offset, i);
          return Some(i);
        }
        if buf[i] == 0 && buf[i + 1] == 0 && buf[i + 2] == 1 {
          FindFrom(buf, offset, i);
          return Some(i);
        }
        i := i + 1;
      }
      FindFinds(buf, offset);
      return None;
    }

    method FillStreamBuffer() returns (filled: bool)
      requires Valid()
      modifies this`source, this`streamBuffer
      ensures Valid()
      ensures filled <==> old(Packets(source)) != []
      ensures filled ==> |source| < |old(source)|
      ensures filled ==> Packets(source) == old(Packets(source))[1..]
      ensures filled <==> old(source) != [] && old(source)[0].Packet?
      ensures filled ==> streamBuffer == old(streamBuffer) + old(source)[0].data
      ensures source == if old(source) == [] then [] else old(source)[1..]
      ensures streamBuffer == if filled then old(streamBuffer) + old(Packets(source))[0] else old(streamBuffer)
    {
      if source == [] {
        return false;
      }
      var ret := source[0];
      source := source[1..];
      if !ret.Packet? {
        return false;
      }
      if |ret.data| > 0 {
        streamBuffer := streamBuffer + ret.data;
      }
      return true;
    }

    /** Makes the unit that begins at `start` the current one. It ends at the next start code at hand. */
    method CutNalu(start: nat)
      requires Valid() && Find(streamBuffer, streamBufferOffset) == Some(start)
      modifies this`currentNalu, this`streamBufferOffset, this`currentNaluOffset
      ensures Valid() && WellFormed(currentNalu) && currentNaluOffset == 0
      ensures old(Units()) == [currentNalu] + Units()
      ensures streamBufferOffset == (match Find(streamBuffer, start + 3) case Some(p) => p case None => |streamBuffer|)
      ensures start <= streamBufferOffset <= |streamBuffer|
      ensures currentNalu == streamBuffer[start..streamBufferOffset]
      ensures streamBufferOffset >= old(streamBufferOffset) + 3
    {
      var endPos := FindStartCode(streamBuffer, start + 3);
      var end := if endPos.None? then |streamBuffer| else endPos.value;
      CutStep(streamBuffer, streamBufferOffset, Unread(), Packets(source), start, end);
      currentNalu := streamBuffer[start..end];
      streamBufferOffset := end;
      currentNaluOffset := 0;
    }

    /** Makes the next unit the current one, reading on while no start code is at hand. */
    method ExtractNextNalu() returns (found: bool)
      requires Valid() && currentNalu == []
      modifies this
      ensures Valid() && currentNaluIndex == old(currentNaluIndex)
      ensures found <==> old(Units()) != []
      ensures found ==> currentNalu == old(Units())[0] && Units() == old(Units())[1..] && currentNaluOffset == 0
      ensures found ==> WellFormed(currentNalu)
      ensures found ==> |source| <= |old(source)| && streamBufferOffset >= old(streamBufferOffset) + 3
      ensures found ==> streamBuffer + Flatten(Packets(source)) == old(streamBuffer + Flatten(Packets(source)))
      ensures !found ==> currentNalu == [] && streamBufferOffset == old(streamBufferOffset)
      ensures !found ==> streamBuffer == old(streamBuffer + Flatten(Packets(source)))
    {
      while true
        invariant Valid() && currentNalu == [] && currentNaluIndex == old(currentNaluIndex)
        invariant streamBufferOffset == old(streamBufferOffset) && |source| <= |old(source)|
        invariant Units() == old(Units())
        invariant streamBuffer + Flatten(Packets(source)) == old(streamBuffer + Flatten(Packets(source)))
        decreases |source|
      {
        var startPos := FindStartCode(streamBuffer, streamBufferOffset);
        if startPos.Some? {
          CutNalu(startPos.value);
          return true;
        } else {
          RefillStep(streamBuffer, streamBufferOffset, Unread(), Packets(source));
          ghost var buffer, packets, unread := streamBuffer, Packets(source), Unread();
          var filled := FillStreamBuffer();
          if !filled {
            return false;
          }
          assert Unread() == unread + packets[0];
          RefillBytes(buffer, packets);
        }
      }
    }

    /** Moves the cursor past bytes handed out; past the last ones, the unit is done with. */
    method Advance(n: nat)
      requires currentNaluOffset + n <= |currentNalu|
      modifies this`currentNalu, this`currentNaluOffset, this`currentNaluIndex
      ensures if old(currentNaluOffset) + n < old(|currentNalu|)
              then currentNalu == old(currentNalu) && currentNaluOffset == old(currentNaluOffset) + n
                   && currentNaluIndex == old(currentNaluIndex)
              else currentNalu == [] && currentNaluOffset == 0 && currentNaluIndex == NextIndex(old(currentNaluIndex))
    {
      currentNaluOffset := currentNaluOffset + n;
      if currentNaluOffset >= |currentNalu| {
        currentNalu := [];
        currentNaluOffset := 0;
        currentNaluIndex := NextIndex(currentNaluIndex);
      }
    }

    /** Copies the next block of the current unit and moves the cursor past it. */
    method CopyBlock() returns (bytesToCopy: nat, out: Block)
      requires Valid() && currentNalu != []
      modifies this`currentNalu, this`currentNaluOffset, this`currentNaluIndex
      ensures Valid()
      ensures old(Pending()) != [] && out == old(Pending())[0] && Pending() == old(Pending())[1..]
      ensures 1 <= |out.data| == bytesToCopy <= BLOCK_SIZE
      ensures var nalu, from := old(currentNalu), old(currentNaluOffset);
              && bytesToCopy == (if |nalu| - from < 1024 then |nalu| - from else 1024)
              && out.data == nalu[from..from + bytesToCopy]
              && out.blockIndex == ToU32(from / 1024) && out.naluBlockSize == ToU32((|nalu| + 1023) / 1024)
              && out.naluIndex == old(currentNaluIndex)
      ensures if old(currentNaluOffset) + bytesToCopy < old(|currentNalu|)
              then currentNalu == old(currentNalu) && currentNaluOffset == old(currentNaluOffset) + bytesToCopy
                   && currentNaluIndex == old(currentNaluIndex)
              else currentNalu == [] && currentNaluOffset == 0 && currentNaluIndex == NextIndex(old(currentNaluIndex))
    {
      ghost var later := Emission(Units(), NextIndex(currentNaluIndex));
      var naluSize := |currentNalu|;
      DivisionCounts(naluSize);
      var naluBlockSize := ToU32((naluSize + 1023) / 1024);
      var blockIndex := ToU32(currentNaluOffset / 1024);
      bytesToCopy := if naluSize - currentNaluOffset < BLOCK_SIZE then naluSize - currentNaluOffset else BLOCK_SIZE;
      out := Block(blockIndex, currentNaluIndex, naluBlockSize,
                   currentNalu[currentNaluOffset..currentNaluOffset + bytesToCopy]);
      RemainderStep(currentNalu, currentNaluOffset, currentNaluIndex, bytesToCopy, out, later);
      Advance(bytesToCopy);
    }

    /** Hands out the next block. Both the end of the stream and a read error yield zero. */
    method ReadTo(into: Block) returns (bytesRead: nat, out: Block)
      requires Valid()
      modifies this
      ensures Valid()
      ensures bytesRead == 0 <==> old(Pending()) == []
      ensures bytesRead == 0 ==> out == into
      ensures bytesRead > 0 ==> out == old(Pending())[0] && Pending() == old(Pending())[1..]
      ensures bytesRead > 0 ==> |out.data| == bytesRead <= BLOCK_SIZE
    {
      if currentNalu == [] || currentNaluOffset >= |currentNalu| {
        var found := ExtractNextNalu();
        if !found {
          return 0, into;
        }
        assert Pending() == old(Pending());
      }
      bytesRead, out := CopyBlock();
    }
  }
}
