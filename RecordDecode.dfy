/**
 * Decoding of one routing message: the entry built from the sockaddr_inarp
 * and sockaddr_dl that follow the rt_msghdr at the start of the record.
 */
module RecordDecode {
  import opened Wrappers
  import opened Layout

  /**
   * ArpTable.Entry: an IPv4 address and, when the kernel knows one, a
   * physical address. The IP address is held as the value IPAddress is
   * constructed from (its Address), the 32-bit sin_addr as read on a
   * little-endian machine; AddressBytes gives its GetAddressBytes().
   */
  datatype Entry = Entry(ipAddress: U32, physicalAddress: Option<seq<byte>>)

  /** The exception Array.Copy throws when asked for more bytes than sdl_data holds. */
  datatype DecodeError = CopyOutOfRange(length: nat)

  /** new IPAddress(v).GetAddressBytes(): the four bytes of `v`, least significant first. */
  function AddressBytes(v: U32): (b: seq<byte>)
    ensures |b| == 4
  {
    var v1 := v / 0x100;
    var v2 := v1 / 0x100;
    var v3 := v2 / 0x100;
    [(v % 0x100) as byte, (v1 % 0x100) as byte, (v2 % 0x100) as byte, (v3 % 0x100) as byte]
  }

  lemma SplitByte(low: nat, high: nat)
    requires low < 0x100
    ensures (low + 0x100 * high) % 0x100 == low && (low + 0x100 * high) / 0x100 == high
  {
  }

  /**
   * Reading sin_addr as a little-endian uint and handing it to IPAddress gives
   * back the four bytes as they lie in memory (network order).
   */
  lemma AddressBytesOfRead(buf: seq<byte>, at: nat)
    requires at + 4 <= |buf|
    ensures AddressBytes(ReadU32(buf, at)) == buf[at..at + 4]
  {
    var b0, b1, b2, b3 := buf[at] as nat, buf[at + 1] as nat, buf[at + 2] as nat, buf[at + 3] as nat;
    var v := ReadU32(buf, at);
    SplitByte(b0, b1 + 0x100 * (b2 + 0x100 * b3));
    SplitByte(b1, b2 + 0x100 * b3);
    SplitByte(b2, b3);
    SplitByte(b3, 0);
  }

  /** Reading back the bytes of an address gives the address. */
  lemma ReadOfAddressBytes(v: U32)
    ensures ReadU32(AddressBytes(v), 0) == v
  {
    var v1 := v / 0x100;
    var v2 := v1 / 0x100;
    var v3 := v2 / 0x100;
    assert v == v % 0x100 + 0x100 * v1;
    assert v1 == v1 % 0x100 + 0x100 * v2;
    assert v2 == v2 % 0x100 + 0x100 * v3;
    assert v3 < 0x100;
  }

  /** Array.Copy(src, 0, dst, 0, length) into a new byte[length]. */
  function ArrayCopy(src: seq<byte>, length: nat): (r: Result<seq<byte>, DecodeError>)
    ensures r.Ok? <==> length <= |src|
    ensures r.Err? ==> r.error == CopyOutOfRange(length)
    ensures r.Ok? ==> |r.value| == length && forall i :: 0 <= i < length ==> r.value[i] == src[i]
  {
    if length > |src| then Err(CopyOutOfRange(length)) else Ok(src[..length])
  }

  /**
   * The entry for the record whose first RecordExtent bytes are those of `w`:
   * sin_addr becomes the IP address, and a physical address is copied out of
   * sdl_data when sdl_alen is positive.
   */
  function Decode(w: seq<byte>): (r: Result<Entry, DecodeError>)
    requires |w| >= RecordExtent
    ensures r.Err? <==> w[AddressLengthAt] as nat > SdlDataCapacity
    ensures r.Err? ==> r.error == CopyOutOfRange(w[AddressLengthAt] as nat)
    ensures r.Ok? ==> r.value.ipAddress == ReadU32(w, IpAddressAt)
  {
    var sin := RtMsgHdrSize;                      // sockaddr_inarp follows the header
    var sdl := RtMsgHdrSize + SockaddrInarpSize;  // sockaddr_dl follows sockaddr_inarp
    var sinAddr := ReadU32(w, sin + SinAddrOffset);
    var alen := w[sdl + SdlAlenOffset] as nat;
    var sdlData := w[sdl + SdlDataOffset .. sdl + SdlDataOffset + SdlDataCapacity];
    var entry := Entry(sinAddr, None);
    if alen > 0 then
      match ArrayCopy(sdlData, alen)
      case Err(e) => Err(e)
      case Ok(phaddr) => Ok(entry.(physicalAddress := Some(phaddr)))
    else
      Ok(entry)
  }

  /**
   * What Decode makes of a record, in terms of its bytes: the IP address is
   * sin_addr, whose address bytes are the four bytes of sin_addr as they lie
   * in the record; there is a physical address exactly when
   * sdl_alen is positive, and it is the first sdl_alen bytes of sdl_data; and
   * decoding fails, with Array.Copy's error, exactly when sdl_alen exceeds the
   * twelve bytes sdl_data holds.
   */
  lemma DecodeFields(w: seq<byte>)
    requires |w| >= RecordExtent
    ensures var d := Decode(w);
      (d.Ok? <==> w[AddressLengthAt] as nat <= SdlDataCapacity) &&
      (d.Err? ==> d.error == CopyOutOfRange(w[AddressLengthAt] as nat)) &&
      (d.Ok? ==> d.value.ipAddress == ReadU32(w, IpAddressAt)) &&
      (d.Ok? ==> AddressBytes(d.value.ipAddress) == w[IpAddressAt..IpAddressAt + 4]) &&
      (d.Ok? ==> (d.value.physicalAddress.Some? <==> w[AddressLengthAt] > 0)) &&
      (d.Ok? && d.value.physicalAddress.Some? ==>
        |d.value.physicalAddress.value| == w[AddressLengthAt] as nat &&
        d.value.physicalAddress.value == w[AddressDataAt..AddressDataAt + w[AddressLengthAt] as nat])
  {
    AddressBytesOfRead(w, RtMsgHdrSize + SinAddrOffset);
  }

  /** Array.Copy rejects the record at `at`: its sdl_alen exceeds the twelve bytes of sdl_data. */
  predicate CopyFails(buf: seq<byte>, at: nat)
    requires at + RecordExtent <= |buf|
  {
    buf[at + AddressLengthAt] as nat > SdlDataCapacity
  }

  /** Decoding the record at `at` fails exactly when Array.Copy rejects it. */
  lemma DecodeFailsAt(buf: seq<byte>, at: nat)
    requires at + RecordExtent <= |buf|
    ensures Decode(buf[at..]).Err? <==> CopyFails(buf, at)
  {
    DecodeFields(buf[at..]);
  }

  /** Decode reads nothing of the record beyond its first RecordExtent bytes. */
  lemma DecodeReadsOnlyExtent(w: seq<byte>, v: seq<byte>)
    requires |w| >= RecordExtent && |v| >= RecordExtent
    requires w[..RecordExtent] == v[..RecordExtent]
    ensures Decode(w) == Decode(v)
  {
    forall i | 0 <= i < RecordExtent
      ensures w[i] == v[i]
    {
      assert w[i] == w[..RecordExtent][i];
    }
    assert w[RtMsgHdrSize + SockaddrInarpSize + SdlDataOffset .. RecordExtent]
        == v[RtMsgHdrSize + SockaddrInarpSize + SdlDataOffset .. RecordExtent];
  }

  /** The entries a routing message can carry: a 32-bit address and at most twelve physical address bytes. */
  predicate Encodable(e: Entry)
  {
    (e.physicalAddress.Some? ==> 0 < |e.physicalAddress.value| <= SdlDataCapacity)
  }

  function Zeros(n: nat): (z: seq<byte>)
    ensures |z| == n && forall i :: 0 <= i < n ==> z[i] == 0
  {
    seq(n, _ => 0)
  }

  /**
   * A record of exactly RecordExtent bytes carrying `e` in the fields Decode
   * reads: rtm_msglen is the record's length, sin_addr is the address,
   * sdl_alen and sdl_data carry the physical address, and every other byte is
   * zero.
   */
  function EncodeRecord(e: Entry): (rec: seq<byte>)
    requires Encodable(e)
    ensures |rec| == RecordExtent && MsgLen(rec, 0) == |rec|
  {
    var mac := if e.physicalAddress.Some? then e.physicalAddress.value else [];
    [RecordExtent as byte, 0] + Zeros(IpAddressAt - 2) + AddressBytes(e.ipAddress)
      + Zeros(AddressLengthAt - IpAddressAt - 4) + [|mac| as byte, 0]
      + mac + Zeros(SdlDataCapacity - |mac|)
  }

  /** Decoding the record written for an entry gives the entry back. */
  lemma DecodeEncode(e: Entry)
    requires Encodable(e)
    ensures Decode(EncodeRecord(e)) == Ok(e)
  {
    var rec := EncodeRecord(e);
    DecodeFields(rec);
    var mac := if e.physicalAddress.Some? then e.physicalAddress.value else [];
    var head := [RecordExtent as byte, 0] + Zeros(IpAddressAt - 2);
    var mid := Zeros(AddressLengthAt - IpAddressAt - 4) + [|mac| as byte, 0];
    var ip := AddressBytes(e.ipAddress);
    assert rec == head + ip + mid + mac + Zeros(SdlDataCapacity - |mac|);
    assert rec[IpAddressAt..IpAddressAt + 4] == ip;
    ReadOfAddressBytes(e.ipAddress);
    assert ReadU32(rec, IpAddressAt) == ReadU32(ip, 0);
    assert rec[AddressLengthAt] as nat == |mac|;
    assert rec[AddressDataAt..AddressDataAt + |mac|] == mac;
  }
}
