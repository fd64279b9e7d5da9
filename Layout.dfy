/**
 * The binary layout of one routing message as the kernel returns it for an
 * RTF_LLINFO query: an rt_msghdr, then a sockaddr_inarp, then a sockaddr_dl,
 * each marshalled with LayoutKind.Sequential (every field at its natural
 * alignment) and read in host (little-endian) byte order.
 */
module Layout {
  newtype byte = x: int | 0 <= x < 0x100

  // rt_msghdr: rtm_msglen (ushort) at 0, rtm_version and rtm_type at 2 and 3,
  // rtm_index (ushort) at 4, two bytes of padding, then seven 32-bit fields
  // from rtm_flags at 8 to rtm_inits at 32, and rt_metrics (fourteen 32-bit
  // words) from 36 to 92.
  const RtMsgHdrSize: nat := 92
  const RtmMsglenOffset: nat := 0

  // sockaddr_inarp: sin_len, sin_family, sin_port (ushort), sin_addr (in_addr)
  // at 4, sin_srcaddr at 8, sin_tos and sin_other (ushort) at 12 and 14.
  const SockaddrInarpSize: nat := 16
  const SinAddrOffset: nat := 4

  // sockaddr_dl: sdl_len, sdl_family, sdl_index (ushort), sdl_type, sdl_nlen,
  // sdl_alen at 6, sdl_slen at 7, and sdl_data, twelve bytes, from 8 to 20.
  const SockaddrDlSize: nat := 20
  const SdlAlenOffset: nat := 6
  const SdlDataOffset: nat := 8
  const SdlDataCapacity: nat := 12

  /** Bytes read from the start of every record: the three structs one after the other. */
  const RecordExtent: nat := RtMsgHdrSize + SockaddrInarpSize + SockaddrDlSize

  // The same positions measured from the start of the record.
  const IpAddressAt: nat := 96        // sin_addr
  const AddressLengthAt: nat := 114   // sdl_alen
  const AddressDataAt: nat := 116     // sdl_data

  /** The values of a uint. */
  type U32 = x: nat | x < 0x1_0000_0000

  /** A ushort at `at`, least significant byte first. */
  function ReadU16(buf: seq<byte>, at: nat): (v: nat)
    requires at + 2 <= |buf|
    ensures v < 0x1_0000
  {
    buf[at] as nat + 0x100 * buf[at + 1] as nat
  }

  /** A uint at `at`, least significant byte first. */
  function ReadU32(buf: seq<byte>, at: nat): (v: nat)
    requires at + 4 <= |buf|
    ensures v < 0x1_0000_0000
  {
    buf[at] as nat + 0x100 * (buf[at + 1] as nat + 0x100 * (buf[at + 2] as nat + 0x100 * buf[at + 3] as nat))
  }

  /** rtm_msglen of the record that starts at `at`. */
  function MsgLen(buf: seq<byte>, at: nat): (len: nat)
    requires at + RtmMsglenOffset + 2 <= |buf|
    ensures len < 0x1_0000
  {
    ReadU16(buf, at + RtmMsglenOffset)
  }
}
