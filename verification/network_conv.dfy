/** The message-size header: a uint32 carried as four bytes, least
    significant first, whatever the host's byte order. `memcpy` between a
    value and its bytes is modelled by the host's byte order, which is a
    parameter (`littleEndianHost`); `byte_swap` reverses the four bytes. */
module NetworkConv {
  import opened CInts

  /** `std::array<std::byte, sizeof(NetworkSizeType)>`. */
  type SizeBytes = b: seq<U8> | |b| == 4 witness [0, 0, 0, 0]

  /** The bytes of v, least significant first. */
  function LittleEndianBytes(v: U32): (b: SizeBytes)
    ensures b[0] == v % 0x100 && b[1] == v / 0x100 % 0x100
    ensures b[2] == v / 0x1_0000 % 0x100 && b[3] == v / 0x100_0000
  {
    [v % 0x100, v / 0x100 % 0x100, v / 0x1_0000 % 0x100, v / 0x100_0000]
  }

  /** The value whose least significant byte comes first. */
  function LittleEndianValue(b: SizeBytes): U32
  {
    b[0] as int + 0x100 * (b[1] as int) + 0x1_0000 * (b[2] as int) + 0x100_0000 * (b[3] as int)
  }

  lemma LittleEndianValueOfBytes(v: U32)
    ensures LittleEndianValue(LittleEndianBytes(v)) == v
  {
    var q1, q2, q3 := v / 0x100, v / 0x1_0000, v / 0x100_0000;
    assert v == 0x100 * q1 + v % 0x100;
    assert q1 == 0x100 * q2 + q1 % 0x100;
    assert q2 == 0x100 * q3 + q2 % 0x100;
  }

  lemma LittleEndianBytesOfValue(b: SizeBytes)
    ensures LittleEndianBytes(LittleEndianValue(b)) == b
  {
    var v := LittleEndianValue(b);
    assert v % 0x100 == b[0];
    assert v / 0x100 == b[1] as int + 0x100 * (b[2] as int) + 0x1_0000 * (b[3] as int);
    assert v / 0x1_0000 == b[2] as int + 0x100 * (b[3] as int);
    assert v / 0x100_0000 == b[3];
  }

  function Reverse(b: SizeBytes): (r: SizeBytes)
    ensures forall i :: 0 <= i < 4 ==> r[i] == b[3 - i]
  {
    [b[3], b[2], b[1], b[0]]
  }

  /** `byte_swap` on a uint32. */
  function ByteSwap(v: U32): U32
  {
    LittleEndianValue(Reverse(LittleEndianBytes(v)))
  }

  lemma ByteSwapTwice(v: U32)
    ensures ByteSwap(ByteSwap(v)) == v
  {
    var b := LittleEndianBytes(v);
    LittleEndianBytesOfValue(Reverse(b));
    assert Reverse(Reverse(b)) == b;
    LittleEndianValueOfBytes(v);
  }

  /** The bytes of a swapped value are the value's bytes reversed. */
  lemma SwappedBytes(v: U32)
    ensures LittleEndianBytes(ByteSwap(v)) == Reverse(LittleEndianBytes(v))
  {
    LittleEndianBytesOfValue(Reverse(LittleEndianBytes(v)));
  }

  /** Swapping the value read from reversed bytes reads them in order. */
  lemma SwappedValue(b: SizeBytes)
    ensures ByteSwap(LittleEndianValue(Reverse(b))) == LittleEndianValue(b)
  {
    LittleEndianBytesOfValue(Reverse(b));
    assert Reverse(Reverse(b)) == b;
  }

  /** The bytes `memcpy` copies out of a uint32 on the host. */
  function HostBytes(v: U32, littleEndianHost: bool): SizeBytes
  {
    if littleEndianHost then LittleEndianBytes(v) else Reverse(LittleEndianBytes(v))
  }

  /** The uint32 `memcpy` assembles from four bytes on the host. */
  function HostValue(b: SizeBytes, littleEndianHost: bool): U32
  {
    if littleEndianHost then LittleEndianValue(b) else LittleEndianValue(Reverse(b))
  }

  /** `to_network_bytes`: swap first on a big-endian host, then copy out. The
      result is the little-endian encoding on either host. */
  function ToNetworkBytes(v: U32, littleEndianHost: bool): (b: SizeBytes)
    ensures b == LittleEndianBytes(v)
  {
    var adjusted := if littleEndianHost then v else ByteSwap(v);
    SwappedBytes(v);
    HostBytes(adjusted, littleEndianHost)
  }

  /** `from_network_bytes`: copy in, then swap on a big-endian host. The
      result reads the bytes as little-endian on either host. */
  function FromNetworkBytes(b: SizeBytes, littleEndianHost: bool): (v: U32)
    ensures v == LittleEndianValue(b)
  {
    var size := HostValue(b, littleEndianHost);
    SwappedValue(b);
    if littleEndianHost then size else ByteSwap(size)
  }

  /** Decoding an encoded size gives it back, and the hosts at either end
      may differ in byte order. */
  lemma SizeRoundTrip(v: U32, senderLittle: bool, receiverLittle: bool)
    ensures FromNetworkBytes(ToNetworkBytes(v, senderLittle), receiverLittle) == v
  {
    LittleEndianValueOfBytes(v);
  }

  /** Every four-byte header is the encoding of the size it decodes to. */
  lemma BytesRoundTrip(b: SizeBytes, senderLittle: bool, receiverLittle: bool)
    ensures ToNetworkBytes(FromNetworkBytes(b, receiverLittle), senderLittle) == b
  {
    LittleEndianBytesOfValue(b);
  }
}
