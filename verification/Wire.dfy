/** The datagram format: a packed 16-byte header in network byte order (Appendix B of RFC 791)
    and a fixed payload area, composed and decomposed on a host of either byte order. */
module Wire {
  import opened Bytes
  import opened Fragmenter

  const HEADER_SIZE: nat := 16
  const FIELD_SIZE: nat := 128

  // ----- Byte order

  datatype ByteOrder = LittleEndian | BigEndian

  function Pow256(n: nat): nat {
    if n == 0 then 1 else 0x100 * Pow256(n - 1)
  }

  /** The `n` low bytes of a number, most significant first. */
  function Be(x: nat, n: nat): (r: seq<Byte>)
    ensures |r| == n
  {
    if n == 0 then [] else Be(x / 0x100, n - 1) + [x % 0x100]
  }

  /** The number spelled by bytes, most significant first. */
  function Value(s: seq<Byte>): nat {
    if s == [] then 0 else Value(s[..|s| - 1]) * 0x100 + s[|s| - 1]
  }

  lemma {:induction false} ValueOfBe(x: nat, n: nat)
    requires x < Pow256(n)
    ensures Value(Be(x, n)) == x
  {
    if n > 0 {
      ValueOfBe(x / 0x100, n - 1);
      assert Be(x, n)[..n - 1] == Be(x / 0x100, n - 1);
    }
  }

  lemma {:induction false} BeOfValue(s: seq<Byte>)
    ensures Be(Value(s), |s|) == s
  {
    if s != [] {
      BeOfValue(s[..|s| - 1]);
    }
  }

  lemma {:induction false} ValueBound(s: seq<Byte>)
    ensures Value(s) < Pow256(|s|)
  {
    if s != [] { ValueBound(s[..|s| - 1]); }
  }

  lemma Widths()
    ensures Pow256(2) == 0x1_0000 && Pow256(4) == 0x1_0000_0000
  {
  }

  function Value16(s: seq<Byte>): U16
    requires |s| == 2
  {
    ValueBound(s);
    Widths();
    Value(s)
  }

  function Value32(s: seq<Byte>): U32
    requires |s| == 4
  {
    ValueBound(s);
    Widths();
    Value(s)
  }

  function Backwards(s: seq<Byte>): (r: seq<Byte>)
    ensures |r| == |s|
  {
    if s == [] then [] else Backwards(s[1..]) + [s[0]]
  }

  lemma {:induction false} BackwardsSnoc(s: seq<Byte>, b: Byte)
    ensures Backwards(s + [b]) == [b] + Backwards(s)
  {
    if s != [] {
      BackwardsSnoc(s[1..], b);
      assert (s + [b])[1..] == s[1..] + [b];
    }
  }

  lemma {:induction false} BackwardsTwice(s: seq<Byte>)
    ensures Backwards(Backwards(s)) == s
  {
    if s != [] {
      BackwardsSnoc(Backwards(s[1..]), s[0]);
      BackwardsTwice(s[1..]);
    }
  }

  /** The bytes a host keeps in memory for an `n`-byte number, and the number it loads from bytes. */
  function Store(order: ByteOrder, x: nat, n: nat): (r: seq<Byte>)
    ensures |r| == n
  {
    if order.BigEndian? then Be(x, n) else Backwards(Be(x, n))
  }

  function InMemory(order: ByteOrder, s: seq<Byte>): (r: seq<Byte>)
    ensures |r| == |s|
  {
    if order.BigEndian? then s else Backwards(s)
  }

  function Load16(order: ByteOrder, s: seq<Byte>): U16
    requires |s| == 2
  {
    Value16(InMemory(order, s))
  }

  function Load32(order: ByteOrder, s: seq<Byte>): U32
    requires |s| == 4
  {
    Value32(InMemory(order, s))
  }

  /** Host to network order: the bytes are swapped unless the host has that order already. The same
      function converts back. */
  function Hton16(order: ByteOrder, x: U16): U16 {
    Value16(InMemory(order, Be(x, 2)))
  }

  function Hton32(order: ByteOrder, x: U32): U32 {
    Value32(InMemory(order, Be(x, 4)))
  }

  // ----- What these are, byte by byte

  lemma BeBytes2(x: U16)
    ensures Be(x, 2) == [x / 0x100, x % 0x100]
  {
    assert Be(x / 0x100, 1) == Be(x / 0x100 / 0x100, 0) + [x / 0x100];
  }

  /** The most significant byte comes first. */
  lemma BeBytes4(x: U32)
    ensures Be(x, 4) == [x / 0x100_0000, x / 0x1_0000 % 0x100, x / 0x100 % 0x100, x % 0x100]
  {
    var y, z := x / 0x100, x / 0x1_0000;
    assert y / 0x100 == z && z / 0x100 == x / 0x100_0000;
    assert Be(x, 4) == Be(y, 3) + [x % 0x100];
    assert Be(y, 3) == Be(z, 2) + [y % 0x100];
    BeBytes2(z);
  }

  lemma ValueBytes2(s: seq<Byte>)
    requires |s| == 2
    ensures Value16(s) == (s[0] as int) * 0x100 + s[1]
  {
    assert s[..1][..0] == [];
    assert Value(s[..1]) == s[0];
  }

  lemma ValueBytes4(s: seq<Byte>)
    requires |s| == 4
    ensures Value32(s) == (s[0] as int) * 0x100_0000 + (s[1] as int) * 0x1_0000 + (s[2] as int) * 0x100 + s[3]
  {
    ValueBytes2(s[..2]);
    assert s[..3][..2] == s[..2];
    assert Value(s[..3]) == Value(s[..2]) * 0x100 + s[2];
  }

  lemma BackwardsBytes(s: seq<Byte>)
    requires |s| == 2 || |s| == 4
    ensures Backwards(s) == if |s| == 2 then [s[1], s[0]] else [s[3], s[2], s[1], s[0]]
  {
    assert s[1..] == if |s| == 2 then [s[1]] else [s[1], s[2], s[3]];
    if |s| == 4 {
      assert s[1..][1..] == [s[2], s[3]] && [s[2], s[3]][1..] == [s[3]];
    }
  }

  /** A little-endian host keeps a number least significant byte first, a big-endian one the other way
      round. */
  lemma StoredBytes(order: ByteOrder, x: U32, y: U16)
    ensures Store(order, x, 4)
         == if order.BigEndian? then [x / 0x100_0000, x / 0x1_0000 % 0x100, x / 0x100 % 0x100, x % 0x100]
            else [x % 0x100, x / 0x100 % 0x100, x / 0x1_0000 % 0x100, x / 0x100_0000]
    ensures Store(order, y, 2) == if order.BigEndian? then [y / 0x100, y % 0x100] else [y % 0x100, y / 0x100]
  {
    BeBytes4(x);
    BeBytes2(y);
    BackwardsBytes(Be(x, 4));
    BackwardsBytes(Be(y, 2));
  }

  /** Conversion to and from network order swaps the bytes on a little-endian host and nothing on a
      big-endian one. */
  lemma Converted32(order: ByteOrder, x: U32)
    ensures Hton32(order, x)
         == if order.BigEndian? then x
            else x % 0x100 * 0x100_0000 + x / 0x100 % 0x100 * 0x1_0000 + x / 0x1_0000 % 0x100 * 0x100 + x / 0x100_0000
  {
    BeBytes4(x);
    BackwardsBytes(Be(x, 4));
    if order.BigEndian? {
      Widths();
      ValueOfBe(x, 4);
    } else {
      ValueBytes4(Backwards(Be(x, 4)));
    }
  }

  lemma Converted16(order: ByteOrder, x: U16)
    ensures Hton16(order, x) == if order.BigEndian? then x else x % 0x100 * 0x100 + x / 0x100
  {
    BeBytes2(x);
    BackwardsBytes(Be(x, 2));
    ValueBytes2(InMemory(order, Be(x, 2)));
  }

  /** A converted number is kept in memory most significant byte first, whatever the host. */
  lemma {:induction false} NetworkOrder(order: ByteOrder, x: nat, n: nat)
    ensures Store(order, Value(InMemory(order, Be(x, n))), n) == Be(x, n)
  {
    BeOfValue(InMemory(order, Be(x, n)));
    BackwardsTwice(Be(x, n));
  }

  /** Loading received bytes and converting them yields the number they spell most significant first. */
  lemma {:induction false} HostOrder(order: ByteOrder, s: seq<Byte>)
    ensures Value(InMemory(order, Be(Value(InMemory(order, s)), |s|))) == Value(s)
  {
    BeOfValue(InMemory(order, s));
    BackwardsTwice(s);
  }

  // ----- Packets

  datatype Header = Header(
    encodeMode: Byte, packetIndex: Byte, payloadSize: U16, blockIndex: U32, naluIndex: U32, naluSize: U32)

  /** The two packed structures; their payload areas have fixed sizes. */
  datatype Packet = RawPacket(header: Header, payload: seq<Byte>) | RsPacket(header: Header, payload: seq<Byte>) {
    predicate Typed() {
      |payload| == if RawPacket? then BLOCK_SIZE else FIELD_SIZE
    }
  }

  function Zeros(n: nat): (r: seq<Byte>)
    ensures |r| == n && forall i :: 0 <= i < n ==> r[i] == 0
  {
    seq(n, _ => 0)
  }

  function HeaderImage(order: ByteOrder, h: Header): (r: seq<Byte>)
    ensures |r| == HEADER_SIZE
  {
    [h.encodeMode, h.packetIndex] + Store(order, h.payloadSize, 2)
    + Store(order, h.blockIndex, 4) + Store(order, h.naluIndex, 4) + Store(order, h.naluSize, 4)
  }

  /** The header with its numbers converted to network order. */
  function NetworkHeader(order: ByteOrder, h: Header): Header {
    Header(h.encodeMode, h.packetIndex, Hton16(order, h.payloadSize), Hton32(order, h.blockIndex),
           Hton32(order, h.naluIndex), Hton32(order, h.naluSize))
  }

  /** In memory, a converted header is the same on every host. */
  lemma HeaderIsPortable(order: ByteOrder, h: Header)
    ensures HeaderImage(order, NetworkHeader(order, h)) == HeaderImage(BigEndian, h)
  {
    NetworkOrder(order, h.payloadSize, 2);
    NetworkOrder(order, h.blockIndex, 4);
    NetworkOrder(order, h.naluIndex, 4);
    NetworkOrder(order, h.naluSize, 4);
  }

  /** The bytes of a packet in the memory of a host, which is what its socket sends. */
  function Image(order: ByteOrder, p: Packet): seq<Byte> {
    HeaderImage(order, p.header) + p.payload
  }

  /** The datagram that stands for a packet whose header fields are plain numbers. */
  function Datagram(p: Packet): (r: seq<Byte>)
    ensures |r| == HEADER_SIZE + |p.payload|
  {
    Image(BigEndian, p)
  }

  function RawMessage(b: Block): Packet
    requires |b.data| <= BLOCK_SIZE
  {
    RawPacket(Header(0, 0, |b.data|, b.blockIndex, b.naluIndex, b.naluBlockSize),
              b.data + Zeros(BLOCK_SIZE - |b.data|))
  }

  function RsMessage(blockIndex: U32, packetIndex: Byte, blockLength: U16, naluIndex: U32, naluSize: U32,
                     field: seq<Byte>): Packet
  {
    RsPacket(Header(1, packetIndex, blockLength, blockIndex, naluIndex, naluSize), field)
  }

  /** Where the parts of a datagram stand. */
  lemma Parts(mode: seq<Byte>, size: seq<Byte>, block: seq<Byte>, nalu: seq<Byte>, count: seq<Byte>, rest: seq<Byte>)
    requires |mode| == 2 && |size| == 2 && |block| == 4 && |nalu| == 4 && |count| == 4
    ensures var d := mode + size + block + nalu + count + rest;
            && d[..2] == mode && d[2..4] == size && d[4..8] == block && d[8..12] == nalu && d[12..16] == count
            && d[16..] == rest && d[0] == mode[0] && d[1] == mode[1]
  {
  }

  lemma DatagramParts(h: Header, rest: seq<Byte>)
    ensures var d := HeaderImage(BigEndian, h) + rest;
            && d[0] == h.encodeMode && d[1] == h.packetIndex && d[2..4] == Be(h.payloadSize, 2)
            && d[4..8] == Be(h.blockIndex, 4) && d[8..12] == Be(h.naluIndex, 4) && d[12..16] == Be(h.naluSize, 4)
            && d[16..] == rest
  {
    Parts([h.encodeMode, h.packetIndex], Be(h.payloadSize, 2), Be(h.blockIndex, 4), Be(h.naluIndex, 4),
          Be(h.naluSize, 4), rest);
  }

  /** Where the bytes of a datagram's header stand, and its payload. */
  lemma DatagramBytes(p: Packet)
    ensures var d, h := Datagram(p), p.header;
            && d[..4] == [h.encodeMode, h.packetIndex, h.payloadSize / 0x100, h.payloadSize % 0x100]
            && d[4..8] == [h.blockIndex / 0x100_0000, h.blockIndex / 0x1_0000 % 0x100,
                           h.blockIndex / 0x100 % 0x100, h.blockIndex % 0x100]
            && d[8..12] == [h.naluIndex / 0x100_0000, h.naluIndex / 0x1_0000 % 0x100,
                            h.naluIndex / 0x100 % 0x100, h.naluIndex % 0x100]
            && d[12..16] == [h.naluSize / 0x100_0000, h.naluSize / 0x1_0000 % 0x100,
                             h.naluSize / 0x100 % 0x100, h.naluSize % 0x100]
            && d[16..] == p.payload
  {
    var d, h := Datagram(p), p.header;
    BeBytes2(h.payloadSize);
    BeBytes4(h.blockIndex);
    BeBytes4(h.naluIndex);
    BeBytes4(h.naluSize);
    DatagramParts(h, p.payload);
    assert d[..4] == [d[0], d[1]] + d[2..4];
  }

  /** Composes a raw packet. On a host of either byte order its memory image is the datagram for the block. */
  method ComposeRaw(order: ByteOrder, blockIndex: U32, naluIndex: U32, naluSize: U32,
                    payloadBuffer: Option<seq<Byte>>, payloadLength: U16)
    returns (r: Option<Packet>)
    requires payloadBuffer.Some? && payloadLength <= BLOCK_SIZE ==> payloadLength <= |payloadBuffer.value|
    ensures r.Some? <==> payloadLength <= BLOCK_SIZE && payloadBuffer.Some?
    ensures r.Some? ==> r.value.RawPacket? && r.value.Typed()
    ensures r.Some? ==> Image(order, r.value) == Datagram(RawMessage(
                          Block(blockIndex, naluIndex, naluSize, payloadBuffer.value[..payloadLength])))
    ensures r.Some? ==> |Image(order, r.value)| == HEADER_SIZE + BLOCK_SIZE
    ensures r.Some? ==> Image(order, r.value)[..4] == [0, 0, payloadLength / 0x100, payloadLength % 0x100]
    ensures r.Some? ==> Image(order, r.value)[4..8] == [blockIndex / 0x100_0000, blockIndex / 0x1_0000 % 0x100,
                                                        blockIndex / 0x100 % 0x100, blockIndex % 0x100]
    ensures r.Some? ==> Image(order, r.value)[8..12] == [naluIndex / 0x100_0000, naluIndex / 0x1_0000 % 0x100,
                                                         naluIndex / 0x100 % 0x100, naluIndex % 0x100]
    ensures r.Some? ==> Image(order, r.value)[12..16] == [naluSize / 0x100_0000, naluSize / 0x1_0000 % 0x100,
                                                          naluSize / 0x100 % 0x100, naluSize % 0x100]
    ensures r.Some? ==> Image(order, r.value)[16..16 + payloadLength] == payloadBuffer.value[..payloadLength]
    ensures r.Some? ==> forall i :: 16 + payloadLength <= i < HEADER_SIZE + BLOCK_SIZE ==> Image(order, r.value)[i] == 0
  {
    if payloadLength > BLOCK_SIZE || payloadBuffer.None? {
      return None;
    }
    var header, payload := Header(0, 0, 0, 0, 0, 0), Zeros(BLOCK_SIZE);
    header := header.(encodeMode := 0);
    header := header.(packetIndex := 0);
    header := header.(payloadSize := Hton16(order, payloadLength));
    header := header.(blockIndex := Hton32(order, blockIndex));
    header := header.(naluIndex := Hton32(order, naluIndex));
    header := header.(naluSize := Hton32(order, naluSize));
    payload := payloadBuffer.value[..payloadLength] + payload[payloadLength..];
    HeaderIsPortable(order, Header(0, 0, payloadLength, blockIndex, naluIndex, naluSize));
    DatagramBytes(RawPacket(Header(0, 0, payloadLength, blockIndex, naluIndex, naluSize), payload));
    return Some(RawPacket(header, payload));
  }

  /** Composes an encoded packet. The whole field is copied from the buffer, whatever length is given. */
  method ComposeRs(order: ByteOrder, blockIndex: U32, packetIndex: Byte, blockLength: U16, naluIndex: U32,
                   naluSize: U32, payloadBuffer: Option<seq<Byte>>, payloadLength: U16)
    returns (r: Option<Packet>)
    requires payloadBuffer.Some? && payloadLength <= FIELD_SIZE ==> FIELD_SIZE <= |payloadBuffer.value|
    ensures r.Some? <==> payloadLength <= FIELD_SIZE && payloadBuffer.Some?
    ensures r.Some? ==> r.value.RsPacket? && r.value.Typed()
    ensures r.Some? ==> Image(order, r.value) == Datagram(RsMessage(
                          blockIndex, packetIndex, blockLength, naluIndex, naluSize, payloadBuffer.value[..FIELD_SIZE]))
    ensures r.Some? ==>
              var header := Header(1, packetIndex, blockLength, blockIndex, naluIndex, naluSize);
              Parse(Image(order, r.value)) == Some(RsPacket(header, payloadBuffer.value[..FIELD_SIZE]))
    ensures r.Some? ==> Image(order, r.value)[..4] == [1, packetIndex, blockLength / 0x100, blockLength % 0x100]
    ensures r.Some? ==> Image(order, r.value)[4..8] == [blockIndex / 0x100_0000, blockIndex / 0x1_0000 % 0x100,
                                                        blockIndex / 0x100 % 0x100, blockIndex % 0x100]
    ensures r.Some? ==> Image(order, r.value)[8..12] == [naluIndex / 0x100_0000, naluIndex / 0x1_0000 % 0x100,
                                                         naluIndex / 0x100 % 0x100, naluIndex % 0x100]
    ensures r.Some? ==> Image(order, r.value)[12..16] == [naluSize / 0x100_0000, naluSize / 0x1_0000 % 0x100,
                                                          naluSize / 0x100 % 0x100, naluSize % 0x100]
    ensures r.Some? ==> Image(order, r.value)[16..] == payloadBuffer.value[..FIELD_SIZE]
  {
    if payloadLength > FIELD_SIZE || payloadBuffer.None? {
      return None;
    }
    var header, payload := Header(0, 0, 0, 0, 0, 0), Zeros(FIELD_SIZE);
    header := header.(encodeMode := 1);
    header := header.(packetIndex := packetIndex);
    header := header.(payloadSize := Hton16(order, blockLength));
    header := header.(blockIndex := Hton32(order, blockIndex));
    header := header.(naluIndex := Hton32(order, naluIndex));
    header := header.(naluSize := Hton32(order, naluSize));
    payload := payloadBuffer.value[..FIELD_SIZE] + payload[FIELD_SIZE..];
    HeaderIsPortable(order, Header(1, packetIndex, blockLength, blockIndex, naluIndex, naluSize));
    DatagramBytes(RsPacket(Header(1, packetIndex, blockLength, blockIndex, naluIndex, naluSize), payload));
    ParseDatagram(RsPacket(Header(1, packetIndex, blockLength, blockIndex, naluIndex, naluSize), payload));
    return Some(RsPacket(header, payload));
  }

  // ----- Reading datagrams

  function ReadHeader(d: seq<Byte>): Header
    requires |d| >= HEADER_SIZE
  {
    Header(d[0], d[1], Value16(d[2..4]), Value32(d[4..8]), Value32(d[8..12]), Value32(d[12..16]))
  }

  /** The packets whose datagrams a receiver takes. */
  predicate Sound(p: Packet) {
    && p.Typed()
    && p.header.encodeMode == (if p.RawPacket? then 0 else 1)
    && (p.RawPacket? ==> p.header.payloadSize <= BLOCK_SIZE)
  }

  /** The datagrams that are accepted. The size field of an encoded one is not examined. */
  predicate Acceptable(d: seq<Byte>) {
    && |d| >= HEADER_SIZE
    && (|| (d[0] == 0 && |d| <= HEADER_SIZE + BLOCK_SIZE && Value16(d[2..4]) <= BLOCK_SIZE)
        || (d[0] == 1 && |d| <= HEADER_SIZE + FIELD_SIZE))
  }

  /** The packet an acceptable datagram stands for, missing payload bytes read as zero. */
  function Parse(d: seq<Byte>): (r: Option<Packet>)
    ensures r.Some? <==> Acceptable(d)
    ensures r.Some? ==> Sound(r.value) && r.value.header.encodeMode == d[0]
  {
    if !Acceptable(d) then None
    else if d[0] == 0 then
      Some(RawPacket(ReadHeader(d), d[HEADER_SIZE..] + Zeros(HEADER_SIZE + BLOCK_SIZE - |d|)))
    else Some(RsPacket(ReadHeader(d), d[HEADER_SIZE..] + Zeros(HEADER_SIZE + FIELD_SIZE - |d|)))
  }

  /** Reading a header inverts writing it. */
  lemma HeaderOfBytes(d: seq<Byte>)
    requires |d| >= HEADER_SIZE
    ensures HeaderImage(BigEndian, ReadHeader(d)) == d[..HEADER_SIZE]
  {
    BeOfValue(d[2..4]);
    BeOfValue(d[4..8]);
    BeOfValue(d[8..12]);
    BeOfValue(d[12..16]);
    assert d[..HEADER_SIZE] == [d[0], d[1]] + d[2..4] + d[4..8] + d[8..12] + d[12..16];
  }

  lemma BytesOfHeader(h: Header, rest: seq<Byte>)
    ensures ReadHeader(HeaderImage(BigEndian, h) + rest) == h
  {
    DatagramParts(h, rest);
    Widths();
    ValueOfBe(h.payloadSize, 2);
    ValueOfBe(h.blockIndex, 4);
    ValueOfBe(h.naluIndex, 4);
    ValueOfBe(h.naluSize, 4);
  }

  /** Parsing loses nothing: serialising the result gives back the datagram, padded with zeros to full
      length. */
  lemma ParseCanonical(d: seq<Byte>)
    requires Acceptable(d)
    ensures var p := Parse(d).value; Datagram(p) == d + Zeros(HEADER_SIZE + |p.payload| - |d|)
  {
    HeaderOfBytes(d);
    assert d[..HEADER_SIZE] + d[HEADER_SIZE..] == d;
  }

  /** Every well-typed packet with a matching mode (and, if raw, a size that fits) survives the wire. */
  lemma ParseDatagram(p: Packet)
    requires Sound(p)
    ensures Parse(Datagram(p)) == Some(p)
  {
    var d := Datagram(p);
    BytesOfHeader(p.header, p.payload);
    assert d[HEADER_SIZE..] + Zeros(0) == p.payload;
  }

  /** What is accepted is exactly what begins the datagram of some sound packet and holds its header. */
  lemma AcceptedIff(d: seq<Byte>)
    ensures Parse(d).Some? <==> |d| >= HEADER_SIZE && exists p :: Sound(p) && d <= Datagram(p)
  {
    if Parse(d).Some? {
      ParseCanonical(d);
      assert Sound(Parse(d).value) && d <= Datagram(Parse(d).value);
    }
    if |d| >= HEADER_SIZE && exists p :: Sound(p) && d <= Datagram(p) {
      var p :| Sound(p) && d <= Datagram(p);
      assert d[..HEADER_SIZE] == Datagram(p)[..HEADER_SIZE] == HeaderImage(BigEndian, p.header);
      BytesOfHeader(p.header, d[HEADER_SIZE..]);
      assert HeaderImage(BigEndian, p.header) + d[HEADER_SIZE..] == d;
    }
  }

  lemma Loads16(order: ByteOrder, s: seq<Byte>)
    requires |s| == 2
    ensures Hton16(order, Load16(order, s)) == Value16(s)
  {
    HostOrder(order, s);
  }

  lemma Loads32(order: ByteOrder, s: seq<Byte>)
    requires |s| == 4
    ensures Hton32(order, Load32(order, s)) == Value32(s)
  {
    HostOrder(order, s);
  }

  /** The header fields as loaded and converted on a host. */
  lemma HeaderLoads(order: ByteOrder, d: seq<Byte>)
    requires |d| >= HEADER_SIZE
    ensures Hton16(order, Load16(order, d[2..4])) == ReadHeader(d).payloadSize
    ensures Hton32(order, Load32(order, d[4..8])) == ReadHeader(d).blockIndex
    ensures Hton32(order, Load32(order, d[8..12])) == ReadHeader(d).naluIndex
    ensures Hton32(order, Load32(order, d[12..16])) == ReadHeader(d).naluSize
  {
    Loads16(order, d[2..4]);
    Loads32(order, d[4..8]);
    Loads32(order, d[8..12]);
    Loads32(order, d[12..16]);
  }

  lemma HeaderBytes(d: seq<Byte>)
    requires |d| >= HEADER_SIZE
    ensures var h := ReadHeader(d);
            && h.encodeMode == d[0] && h.packetIndex == d[1]
            && h.payloadSize == (d[2] as int) * 0x100 + d[3]
            && h.blockIndex == (d[4] as int) * 0x100_0000 + (d[5] as int) * 0x1_0000 + (d[6] as int) * 0x100 + d[7]
            && h.naluIndex == (d[8] as int) * 0x100_0000 + (d[9] as int) * 0x1_0000 + (d[10] as int) * 0x100 + d[11]
            && h.naluSize == (d[12] as int) * 0x100_0000 + (d[13] as int) * 0x1_0000 + (d[14] as int) * 0x100 + d[15]
  {
    ValueBytes2(d[2..4]);
    ValueBytes4(d[4..8]);
    ValueBytes4(d[8..12]);
    ValueBytes4(d[12..16]);
  }

  lemma ZerosTail(n: nat, k: nat)
    requires k <= n
    ensures Zeros(n)[k..] == Zeros(n - k)
  {
  }

  /** Total on any bytes: decides acceptance, and on a host of either byte order reads the same packet. */
  method Decompose(order: ByteOrder, payloadBuffer: Option<seq<Byte>>, payloadLength: U16)
    returns (r: Option<Packet>)
    requires payloadBuffer.Some? ==> payloadLength <= |payloadBuffer.value|
    ensures payloadBuffer.None? ==> r.None?
    ensures payloadBuffer.Some? ==> r == Parse(payloadBuffer.value[..payloadLength])
    ensures payloadBuffer.Some? ==>
              var d := payloadBuffer.value;
              r.Some? <==> payloadLength >= 16
                           && ((d[0] == 0 && payloadLength <= 16 + 1024 && (d[2] as int) * 0x100 + d[3] <= 1024)
                               || (d[0] == 1 && payloadLength <= 16 + 128))
    ensures r.Some? ==>
            var d, h := payloadBuffer.value, r.value.header;
            && (r.value.RawPacket? <==> d[0] == 0)
            && h.encodeMode == d[0] && h.packetIndex == d[1]
            && h.payloadSize == (d[2] as int) * 0x100 + d[3]
            && h.blockIndex == (d[4] as int) * 0x100_0000 + (d[5] as int) * 0x1_0000 + (d[6] as int) * 0x100 + d[7]
            && h.naluIndex == (d[8] as int) * 0x100_0000 + (d[9] as int) * 0x1_0000 + (d[10] as int) * 0x100 + d[11]
            && h.naluSize == (d[12] as int) * 0x100_0000 + (d[13] as int) * 0x1_0000 + (d[14] as int) * 0x100 + d[15]
    ensures r.Some? ==>
              && |r.value.payload| == (if r.value.RawPacket? then 1024 else 128)
              && r.value.payload[..payloadLength - 16] == payloadBuffer.value[16..payloadLength]
              && forall i :: payloadLength - 16 <= i < |r.value.payload| ==> r.value.payload[i] == 0
  {
    if payloadLength < HEADER_SIZE || payloadBuffer.None? {
      return None;
    }
    var d := payloadBuffer.value[..payloadLength];
    HeaderLoads(order, d);
    HeaderBytes(d);
    var encodeMode := d[0];
    var header := Header(encodeMode, d[1], 0, 0, 0, 0);
    if encodeMode == 0 {
      if payloadLength - HEADER_SIZE > BLOCK_SIZE {
        return None;
      }
      header := header.(payloadSize := Hton16(order, Load16(order, d[2..4])));
      if header.payloadSize > BLOCK_SIZE {
        return None;
      }
      header := header.(blockIndex := Hton32(order, Load32(order, d[4..8])));
      header := header.(naluIndex := Hton32(order, Load32(order, d[8..12])));
      header := header.(naluSize := Hton32(order, Load32(order, d[12..16])));
      var payload := Zeros(BLOCK_SIZE);
      ZerosTail(BLOCK_SIZE, payloadLength - HEADER_SIZE);
      payload := d[HEADER_SIZE..] + payload[payloadLength - HEADER_SIZE..];
      return Some(RawPacket(header, payload));
    } else if encodeMode == 1 {
      if payloadLength - HEADER_SIZE > FIELD_SIZE {
        return None;
      }
      header := header.(payloadSize := Hton16(order, Load16(order, d[2..4])));
      header := header.(blockIndex := Hton32(order, Load32(order, d[4..8])));
      header := header.(naluIndex := Hton32(order, Load32(order, d[8..12])));
      header := header.(naluSize := Hton32(order, Load32(order, d[12..16])));
      var payload := Zeros(FIELD_SIZE);
      ZerosTail(FIELD_SIZE, payloadLength - HEADER_SIZE);
      payload := d[HEADER_SIZE..] + payload[payloadLength - HEADER_SIZE..];
      return Some(RsPacket(header, payload));
    } else {
      return None;
    }
  }

  // ----- From block to block

  /** The block the server takes from a raw packet. */
  function BlockOf(p: Packet): Block
    requires p.RawPacket? && p.header.payloadSize <= |p.payload|
  {
    Block(p.header.blockIndex, p.header.naluIndex, p.header.naluSize, p.payload[..p.header.payloadSize])
  }

  /** A block sent in a raw packet is received as it was. */
  lemma RawRoundTrip(b: Block)
    requires |b.data| <= BLOCK_SIZE
    ensures var p := Parse(Datagram(RawMessage(b)));
            && p.Some? && p.value.RawPacket? && BlockOf(p.value) == b
            && p.value.header == Header(0, 0, |b.data|, b.blockIndex, b.naluIndex, b.naluBlockSize)
            && p.value.payload[..|b.data|] == b.data
  {
    ParseDatagram(RawMessage(b));
    assert (b.data + Zeros(BLOCK_SIZE - |b.data|))[..|b.data|] == b.data;
  }

  /** A field sent in an encoded packet is received with all its numbers, and no datagram is both raw
      and encoded. */
  lemma RsRoundTrip(blockIndex: U32, packetIndex: Byte, blockLength: U16, naluIndex: U32, naluSize: U32,
                    field: seq<Byte>, b: Block)
    requires |field| == FIELD_SIZE && |b.data| <= BLOCK_SIZE
    ensures var d := Datagram(RsMessage(blockIndex, packetIndex, blockLength, naluIndex, naluSize, field));
            && Parse(d) == Some(RsPacket(Header(1, packetIndex, blockLength, blockIndex, naluIndex, naluSize), field))
            && d != Datagram(RawMessage(b))
  {
    ParseDatagram(RsMessage(blockIndex, packetIndex, blockLength, naluIndex, naluSize, field));
    ParseDatagram(RawMessage(b));
  }
}
