/**
 * Fixed-width unsigned C++ integers. Values are kept as bounded naturals and
 * every arithmetic step that can wrap is written out explicitly.
 */
module CInts {
  const Two8: nat := 0x100
  const Two16: nat := 0x1_0000
  const Two32: nat := 0x1_0000_0000

  type U8 = x: nat | x < Two8
  type U16 = x: nat | x < Two16
  type U32 = x: nat | x < Two32

  /** `x + 1` on std::uint8_t, wrapping from 255 to 0. */
  function Inc8(x: U8): (r: U8)
    ensures x < Two8 - 1 ==> r == x + 1
    ensures x == Two8 - 1 ==> r == 0
  {
    (x + 1) % Two8
  }

  /** `x + 1` on std::uint16_t, wrapping from 65535 to 0. */
  function Inc16(x: U16): (r: U16)
    ensures x < Two16 - 1 ==> r == x + 1
    ensures x == Two16 - 1 ==> r == 0
  {
    (x + 1) % Two16
  }

  /** `x + 1` on std::uint32_t, wrapping from 2^32 - 1 to 0. */
  function Inc32(x: U32): (r: U32)
    ensures x < Two32 - 1 ==> r == x + 1
    ensures x == Two32 - 1 ==> r == 0
  {
    (x + 1) % Two32
  }
}
