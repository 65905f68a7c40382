/**
 * The link-state packet codec of lsPacket.c: an 8-byte advertisement holding
 * hop count, sequence number, source label, destination label and a 32-bit
 * big-endian cost.
 */
module LsPacket {

  /** One byte of a packet buffer, seen as unsigned. */
  type Byte = x: int | 0 <= x < 256

  /** A C `char` used as a router label. */
  type Label = c: char | c as int < 256 witness 'A'

  /** A C `int`: 32-bit two's complement. */
  type Int32 = x: int | -0x8000_0000 <= x < 0x8000_0000

  /** Number of bytes in a link-state packet. */
  const LS_PACKET_SIZE: nat := 8

  /** C's `%` on `int`, which truncates toward zero (Dafny's `%` is Euclidean). */
  function CRem(a: int, b: int): (r: int)
    requires b > 0
    ensures -b < r < b
    ensures a >= 0 ==> r == a % b
    ensures a < 0 ==> r <= 0 && -r == (-a) % b
  {
    if a >= 0 then a % b else -((-a) % b)
  }

  /** The byte `memset` stores for an `int` argument: its conversion to `unsigned char`. */
  function ToByte(x: int): (b: Byte)
    ensures (x - b) % 256 == 0
  {
    x % 256
  }

  /** The value of a byte read back through a (signed) C `char`. */
  function SignedChar(b: Byte): (c: int)
    ensures -128 <= c < 128
    ensures ToByte(c) == b
  {
    if b < 128 then b else b - 256
  }

  /** A 32-bit `int` seen as the unsigned word `htonl` works on. */
  function ToUnsigned32(x: Int32): (u: nat)
    ensures u < 0x1_0000_0000
    ensures x >= 0 ==> u == x
    ensures x < 0 ==> u == x + 0x1_0000_0000
  {
    x % 0x1_0000_0000
  }

  /** An unsigned 32-bit word seen as a C `int` again (what `ntohl`'s result becomes). */
  function ToSigned32(u: nat): (x: Int32)
    requires u < 0x1_0000_0000
    ensures ToUnsigned32(x) == u
  {
    if u < 0x8000_0000 then u else u - 0x1_0000_0000
  }

  /** Network byte order (`htonl`): byte k of the result is the word shifted right by 8 * (3 - k) bits. */
  function BigEndian(u: nat): (bs: seq<Byte>)
    requires u < 0x1_0000_0000
    ensures |bs| == 4
  {
    var x1 := u / 256;
    var x2 := x1 / 256;
    var x3 := x2 / 256;
    [x3 % 256, x2 % 256, x1 % 256, u % 256]
  }

  /** The word whose network byte order is `bs` (`ntohl`). */
  function FromBigEndian(bs: seq<Byte>): (u: nat)
    requires |bs| == 4
    ensures u < 0x1_0000_0000
  {
    ((bs[0] as int * 256 + bs[1]) * 256 + bs[2]) * 256 + bs[3]
  }

  lemma BigEndianRoundTrip(u: nat)
    requires u < 0x1_0000_0000
    ensures FromBigEndian(BigEndian(u)) == u
  {
    var x1 := u / 256;
    var x2 := x1 / 256;
    var x3 := x2 / 256;
    assert u == x1 * 256 + u % 256;
    assert x1 == x2 * 256 + x1 % 256;
    assert x2 == x3 * 256 + x2 % 256;
    assert x3 < 256;
  }

  /** The other direction: every four bytes are the network byte order of the word they denote. */
  lemma BigEndianOnto(bs: seq<Byte>)
    requires |bs| == 4
    ensures BigEndian(FromBigEndian(bs)) == bs
  {
    var u := FromBigEndian(bs);
    var x1 := (bs[0] as int * 256 + bs[1]) * 256 + bs[2];
    var x2 := bs[0] as int * 256 + bs[1];
    assert u / 256 == x1 && u % 256 == bs[3];
    assert x1 / 256 == x2 && x1 % 256 == bs[2];
    assert x2 / 256 == bs[0] && x2 % 256 == bs[1];
  }

  /** The eight bytes `buildLSPacket` writes. */
  function Encode(hopCount: int, seqNumber: int, source: Label, destination: Label, cost: Int32): (p: seq<Byte>)
    ensures |p| == LS_PACKET_SIZE
  {
    [ToByte(CRem(hopCount, 256)), ToByte(CRem(seqNumber, 256)), source as int, destination as int]
      + BigEndian(ToUnsigned32(cost))
  }

  /** getHopCount: byte 0 read as a signed `char`. */
  function HopCount(p: seq<Byte>): (h: int)
    requires |p| >= LS_PACKET_SIZE
    ensures -128 <= h < 128 && ToByte(h) == p[0]
  {
    SignedChar(p[0])
  }

  /** getSequenceNumber: byte 1 read as a signed `char`. */
  function SequenceNumber(p: seq<Byte>): (s: int)
    requires |p| >= LS_PACKET_SIZE
    ensures -128 <= s < 128 && ToByte(s) == p[1]
  {
    SignedChar(p[1])
  }

  /** getSourceID: byte 2 as a `char`. */
  function SourceID(p: seq<Byte>): (c: Label)
    requires |p| >= LS_PACKET_SIZE
    ensures c as int == p[2]
  {
    p[2] as char
  }

  /** getDestinationID: byte 3 as a `char`. */
  function DestinationID(p: seq<Byte>): (c: Label)
    requires |p| >= LS_PACKET_SIZE
    ensures c as int == p[3]
  {
    p[3] as char
  }

  /** getCost: bytes 4..7 in network byte order, as a C `int`. */
  function Cost(p: seq<Byte>): (c: Int32)
    requires |p| >= LS_PACKET_SIZE
    ensures BigEndian(ToUnsigned32(c)) == p[4..8]
  {
    BigEndianOnto(p[4..8]);
    ToSigned32(FromBigEndian(p[4..8]))
  }

  /** Both labels and the cost come back exactly as they were built, for every input. */
  lemma DecodeEncodeFields(hopCount: int, seqNumber: int, source: Label, destination: Label, cost: Int32)
    ensures SourceID(Encode(hopCount, seqNumber, source, destination, cost)) == source
    ensures DestinationID(Encode(hopCount, seqNumber, source, destination, cost)) == destination
    ensures Cost(Encode(hopCount, seqNumber, source, destination, cost)) == cost
  {
    var p := Encode(hopCount, seqNumber, source, destination, cost);
    var u := ToUnsigned32(cost);
    assert p[4..8] == BigEndian(u);
    BigEndianRoundTrip(u);
  }

  /**
   * The advertisement built after sequence number 127 carries `(127 + 1) % 256`,
   * which reads back as -128; the labels and the cost are unaffected.
   */
  lemma SequenceAfter127(hopCount: int, source: Label, destination: Label, cost: Int32)
    ensures var p := Encode(hopCount, (127 + 1) % 256, source, destination, cost);
            && SequenceNumber(p) == -128
            && SourceID(p) == source && DestinationID(p) == destination && Cost(p) == cost
  {
    DecodeEncodeFields(hopCount, 128, source, destination, cost);
  }

  /** A byte stored through `% 256` and read back as a signed `char` is exact iff the value fits a signed `char`. */
  lemma SignedByteRoundTrip(x: int)
    ensures SignedChar(ToByte(CRem(x, 256))) == x <==> -128 <= x < 128
  {
    var r := CRem(x, 256);
    if -128 <= x < 128 {
      assert r == x;
    }
  }

  /** Building then reading the hop count and the sequence number is exact exactly for values in -128..127. */
  lemma DecodeEncodeCounters(hopCount: int, seqNumber: int, source: Label, destination: Label, cost: Int32)
    ensures HopCount(Encode(hopCount, seqNumber, source, destination, cost)) == hopCount
            <==> -128 <= hopCount < 128
    ensures SequenceNumber(Encode(hopCount, seqNumber, source, destination, cost)) == seqNumber
            <==> -128 <= seqNumber < 128
  {
    SignedByteRoundTrip(hopCount);
    SignedByteRoundTrip(seqNumber);
  }

  /** buildLSPacket: writes the advertisement into the first eight bytes of `buffer`. */
  method BuildLSPacket(buffer: array<Byte>, hopCount: Int32, seqNumber: Int32,
                       source: Label, destination: Label, cost: Int32)
    requires buffer.Length >= LS_PACKET_SIZE
    modifies buffer
    ensures buffer[..LS_PACKET_SIZE] == Encode(hopCount, seqNumber, source, destination, cost)
    ensures buffer[LS_PACKET_SIZE..] == old(buffer[LS_PACKET_SIZE..])
  {
    buffer[0] := ToByte(CRem(hopCount, 256));
    buffer[1] := ToByte(CRem(seqNumber, 256));
    buffer[2] := source as int;
    buffer[3] := destination as int;
    var ncost := BigEndian(ToUnsigned32(cost));
    buffer[4], buffer[5], buffer[6], buffer[7] := ncost[0], ncost[1], ncost[2], ncost[3];
  }

  /** decrementHopCount: stores the hop count minus one back into byte 0 and returns it. */
  method DecrementHopCount(lsPacket: array<Byte>) returns (hopCount: int)
    requires lsPacket.Length >= LS_PACKET_SIZE
    modifies lsPacket
    ensures hopCount == HopCount(old(lsPacket[..])) - 1
    ensures lsPacket[0] == ToByte(hopCount)
    ensures lsPacket[1..] == old(lsPacket[1..])
    ensures lsPacket[..] == Decremented(old(lsPacket[..]))
  {
    hopCount := HopCount(lsPacket[..]);
    hopCount := hopCount - 1;
    lsPacket[0] := ToByte(hopCount);
  }

  /** The packet left behind by decrementHopCount. */
  function Decremented(p: seq<Byte>): (q: seq<Byte>)
    requires |p| >= LS_PACKET_SIZE
    ensures |q| == |p|
  {
    p[0 := ToByte(HopCount(p) - 1)]
  }

  /**
   * After a decrement, getHopCount returns the value decrementHopCount returned
   * unless the old hop count was -128 (byte 0x80), where the byte wraps to 127;
   * every other field decodes as before.
   */
  lemma DecrementedFields(p: seq<Byte>)
    requires |p| >= LS_PACKET_SIZE
    ensures HopCount(Decremented(p)) == HopCount(p) - 1 <==> HopCount(p) != -128
    ensures SequenceNumber(Decremented(p)) == SequenceNumber(p)
    ensures SourceID(Decremented(p)) == SourceID(p)
    ensures DestinationID(Decremented(p)) == DestinationID(p)
    ensures Cost(Decremented(p)) == Cost(p)
  {
    var q := Decremented(p);
    assert q[4..8] == p[4..8];
    var h := HopCount(p);
    if h != -128 {
      assert ToByte(h - 1) == if h - 1 >= 0 then h - 1 else h - 1 + 256;
    } else {
      assert ToByte(h - 1) == 127;
    }
  }

  /**
   * The countdown loop of test.c: decrement until the hop count read back is
   * no longer positive. Returns the number of decrements.
   */
  method CountDownHops(lsPacket: array<Byte>) returns (calls: nat)
    requires lsPacket.Length >= LS_PACKET_SIZE
    modifies lsPacket
    ensures calls == if HopCount(old(lsPacket[..])) > 0 then HopCount(old(lsPacket[..])) else 0
    ensures HopCount(lsPacket[..]) == if calls > 0 then 0 else HopCount(old(lsPacket[..]))
    ensures lsPacket[1..] == old(lsPacket[1..])
  {
    ghost var start := HopCount(lsPacket[..]);
    var hopCount := HopCount(lsPacket[..]);
    calls := 0;
    while hopCount > 0
      invariant -128 <= hopCount < 128
      invariant calls == 0 ==> hopCount == start
      invariant calls > 0 ==> 0 <= hopCount && calls + hopCount == start
      invariant HopCount(lsPacket[..]) == hopCount
      invariant lsPacket[1..] == old(lsPacket[1..])
      decreases hopCount
    {
      hopCount := DecrementHopCount(lsPacket);
      calls := calls + 1;
    }
  }

  /** test.c's scenario: a packet built with hop count 3 needs exactly three decrements. */
  method CountDownScenario() returns (calls: nat, cost: Int32)
    ensures calls == 3
    ensures cost == 2142352
  {
    var lsPacket := new Byte[LS_PACKET_SIZE];
    BuildLSPacket(lsPacket, 3, 0, 'A', 'B', 2142352);
    DecodeEncodeCounters(3, 0, 'A', 'B', 2142352);
    DecodeEncodeFields(3, 0, 'A', 'B', 2142352);
    assert lsPacket[..] == lsPacket[..LS_PACKET_SIZE];
    calls := CountDownHops(lsPacket);
    cost := Cost(lsPacket[..]);
    assert lsPacket[4..8] == Encode(3, 0, 'A', 'B', 2142352)[4..8];
  }
}
