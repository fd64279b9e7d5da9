# ARP table resolution (abock/arp), modelled in Dafny

`ArpTable` reads the kernel's ARP cache on BSD-style systems. `Resolve` asks
`sysctl(CTL_NET, PF_ROUTE, 0, AF_INET, NET_RT_FLAGS, RTF_LLINFO)` twice: once
for the size of the routing table and once for the table itself. The table is a
run of routing messages, and `Resolve` walks it from the start, moving by each
message's `rtm_msglen`, until the cursor reaches the returned length. From each
message it reads three structs laid out one after another:

- an `rt_msghdr` (92 bytes);
- a `sockaddr_inarp` (16 bytes, `sin_addr` at +4);
- a `sockaddr_dl` (20 bytes, `sdl_alen` at +6, twelve bytes of `sdl_data` at +8).

The `sin_addr` becomes the entry's IP address. When `sdl_alen` is positive, the
first `sdl_alen` bytes of `sdl_data` become its physical address. Each entry is
added to the `entries` list and passed to the `EntryResolved` handler, in
record order. Enumerating the table yields `entries` in list order.

The project has five files:

- `Layout.dfy` holds the struct sizes and field offsets as constants, with the
  field-by-field layout behind each one. It also holds the little-endian
  `ushort` and `uint` reads.
- `RecordDecode.dfy` holds `Entry` and `Decode`, which turns the first 128
  bytes of one message into an entry or into an `Array.Copy` error. It also
  holds the properties of `Decode` and a reference encoder that `Decode`
  inverts.
- `RecordWalk.dfy` holds the walk:
  - the assumption that the walk reads only the buffer and ends (`Walkable`);
  - the offsets visited (`Offsets`);
  - the walk's result (`ScanFrom`, and `ScanAfter` in the loop's
    accumulating form);
  - lemmas relating these, including the walk over a buffer assembled from
    records.
- `ArpTable.dfy` holds the `ArpTable` class. Its fields are `entries`, whether
  `EntryResolved` has a handler, and the trace of handler calls. Its methods
  are `Resolve` (with its loop in `AddRecords`), `OnEntryResolved`,
  `GetEnumerator` and `entries.Add`.
- `Wrappers.dfy` holds `Option` and `Result`.

The two `sysctl` calls become parameters of `Resolve`: each either failed or
returned a value. The walk's bound is the length of the bytes the second call
returned, as `sysctlBufSize` is after that call.

## Model

| member | source | states |
|---|---|---|
| Layout.ReadU16 | ArpTable.cs:137 | `rtm_msglen` is a ushort read least significant byte first, so it is below 2^16 |
| Layout.ReadU32 | ArpTable.cs:164 | `sin_addr` (an `in_addr`, which is `UInt32`) is a uint read least significant byte first, so it is below 2^32 |
| Layout.MsgLen | ArpTable.cs:64 | the step of the walk is the record's `rtm_msglen`, a ushort at offset 0 of the `rt_msghdr`, so it is below 2^16 |
| RecordDecode.AddressBytes | ArpTable.cs:70 | the address bytes of an IPv4 address number are exactly four |
| RecordDecode.AddressBytesOfRead | ArpTable.cs:70 | reading four bytes as a little-endian uint and taking that address's bytes gives back the four bytes as they lie in memory |
| RecordDecode.ReadOfAddressBytes | ArpTable.cs:70 | reading an address's four bytes back as a uint gives the address |
| RecordDecode.ArrayCopy | ArpTable.cs:74-75 | copying `sdl_alen` bytes out of the twelve of `sdl_data` succeeds exactly when `sdl_alen` is at most twelve, and then gives the first `sdl_alen` bytes; otherwise it fails with the out-of-range error for that length |
| RecordDecode.Decode | ArpTable.cs:65-77 | an `Entry` (ArpTable.cs lines 29 to 33) is an IP address and an optional physical address; decoding a record fails exactly when its `sdl_alen` (offset 114) exceeds 12, with the copy error for that `sdl_alen`, and otherwise gives the entry whose IP address is the uint `sin_addr` at offset 96 |
| RecordDecode.DecodeFields | ArpTable.cs:65-77 | the IP address is the uint at record offset 96, and its bytes are the record's bytes 96..100; decoding fails with Array.Copy's error exactly when `sdl_alen` (offset 114) exceeds 12; otherwise there is a physical address exactly when `sdl_alen > 0`, and it is the `sdl_alen` bytes at offset 116 |
| RecordDecode.DecodeFailsAt | ArpTable.cs:73-75 | the record at an offset fails to decode exactly when its `sdl_alen` byte exceeds 12 |
| RecordDecode.DecodeReadsOnlyExtent | ArpTable.cs:65-67 | decoding a record reads only its first 92 + 16 + 20 bytes |
| RecordDecode.EncodeRecord | ArpTable.cs:133-186 | the reference record for an entry carries the entry in the fields the decoder reads, every other byte zero; it is exactly the three structs long and carries that length in `rtm_msglen` |
| RecordDecode.DecodeEncode | ArpTable.cs:65-77 | decoding the reference record of an entry gives that entry back |
| RecordWalk.Walkable | ArpTable.cs:62-75 | the assumption the walk relies on: every visited record has its three structs inside the buffer, and every visited record whose copy succeeds has a nonzero `rtm_msglen`; nothing is asked past a record whose copy fails |
| RecordWalk.WellFramedIsWalkable | ArpTable.cs:62-64 | records that tile the buffer, each at least 128 bytes long, meet the walk's assumption |
| RecordWalk.Offsets | ArpTable.cs:62-67 | every offset the walk visits has all three structs inside the buffer |
| RecordWalk.OffsetsShape | ArpTable.cs:62-75 | the walk starts at the given offset; every visited record but the last has a successful copy and steps by its `rtm_msglen` to the next; every visited offset is below the buffer's length; the last visited record either fails its copy or steps to an offset at or past the end |
| RecordWalk.ScanFrom | ArpTable.cs:64-81 | the walk appends one entry per visited record until the buffer ends or a copy throws; the exception it stops with is always an out-of-range copy of more than twelve bytes |
| RecordWalk.ScanAfter | ArpTable.cs:61-82 | the walk as the loop runs it, appending to the entries already held: those entries stay a prefix of the result |
| RecordWalk.ScanAfterIsScanFrom | ArpTable.cs:64-81 | the loop's accumulating walk puts the entries already held in front of the walk's entries and ends with the same exception |
| RecordWalk.ScanFollowsOffsets | ArpTable.cs:64-81 | the i-th entry is the decoding of the i-th visited record, with no entry skipped, merged or reordered; the walk throws exactly when it stops one short of the visited records, and then the last visited record is the one that fails and gives the error |
| RecordWalk.ScanCompletes | ArpTable.cs:73-75 | the walk completes without an exception exactly when every visited record decodes |
| RecordWalk.MsgLenAfterPrefix | ArpTable.cs:64 | `rtm_msglen` reads the same once bytes are put in front of the buffer |
| RecordWalk.WalkableAfterPrefix | ArpTable.cs:62-64 | bytes put in front of the buffer do not change whether the walk from a shifted offset meets its assumption |
| RecordWalk.OffsetsShifted | ArpTable.cs:62-64 | bytes put in front of the buffer move the walk's offsets by their length (as one sequence) |
| RecordWalk.OffsetsAfterPrefix | ArpTable.cs:62-64 | bytes put in front of the buffer shift every visited offset by their length |
| RecordWalk.ScanFromAfterPrefix | ArpTable.cs:64-81 | bytes put in front of the buffer do not change the entries or the exception of the walk from a shifted offset |
| RecordWalk.WalkOfRecords | ArpTable.cs:62-64 | over records laid end to end, each carrying its own length and each decoding, the walk visits exactly the record starts |
| RecordWalk.ScanOfFirstRecord | ArpTable.cs:64-81 | the walk over one self-framed record followed by more records decodes the first record, then goes on with the rest |
| RecordWalk.ScanOfRecords | ArpTable.cs:64-81 | over records laid end to end that all decode, the walk yields exactly their entries, in buffer order |
| RecordWalk.ResolveEncodedRecords | ArpTable.cs:64-81 | a buffer of reference records, one per entry of a list, resolves to exactly that list, with no exception |
| Arp.ArpTable.constructor | ArpTable.cs:25-27 | a new table has no entries, no handler and no handler calls |
| Arp.ArpTable.AddEntryResolvedHandler | ArpTable.cs:27 | subscribing to EntryResolved gives it a handler and changes nothing else |
| Arp.ArpTable.AddEntry | ArpTable.cs:79 | `entries.Add` appends the entry at the end of the list |
| Arp.ArpTable.OnEntryResolved | ArpTable.cs:88-93 | the handler is called with the entry when there is one; otherwise nothing happens |
| Arp.ArpTable.GetEnumerator | ArpTable.cs:95-99 | enumeration yields the entries list, in order |
| Arp.ArpTable.AddRecords | ArpTable.cs:61-82 | the loop adds the entry of each visited record (and announces it, when there is a handler) exactly as the accumulating walk does, and ends with the walk's exception |
| Arp.ArpTable.Resolve | ArpTable.cs:35-86 | a failed first or second sysctl call throws its own exception, and no entry is added or announced; otherwise the entries held before the call stay a prefix, followed by the walk's entries in record order; the handler receives the same entries in the same order; the call completes exactly when no record's `sdl_alen` exceeds 12, and throws the copy error otherwise |

## Left out

- The `sysctl` P/Invoke and the selector constants (ArpTable.cs:37-48, 54-55, 190-208). This is a kernel call, so `Resolve` takes what each call reports as a parameter.
- The size estimate of the first call. It only sizes the allocation, and the walk's bound is the length the second call returns.
- `Marshal.AllocHGlobal`, `FreeHGlobal` and the `finally` (ArpTable.cs:51, 83-85). The buffer is a `seq<byte>`, so there is nothing to free.
- Arp.ArpTable.Resolve: requires that the walk reads only the returned bytes and ends (`Walkable`). Every visited record must have 128 readable bytes, and every visited record whose copy succeeds a nonzero `rtm_msglen`. The code checks none of this: a zero `rtm_msglen` on such a record loops forever, and a short record is read past the end of the buffer. Records after one whose copy fails, and that record's own `rtm_msglen`, are not constrained. This precondition is a modelling assumption, not behaviour of the code.
- Arp.ArpTable.AddRecords: carries the same `Walkable` precondition as `Resolve`, for the same reason.
- Framing checks, skipping of corrupt records, and re-validation of the address family. These do not exist in the code. In particular, a record whose `sdl_alen` exceeds 12 makes `Array.Copy` throw. The exception ends `Resolve` after the earlier entries were added and announced; the record is not skipped and the walk does not go on. The model follows the code: the record is not skipped and the walk does not go on.
- `IPAddress` is modelled by the number it is built from (its `Address`). `PhysicalAddress` is modelled by its bytes, with `None` for no physical address.
- `EntryResolved` is a flag for "has a handler" plus a trace of handler calls. Several subscribers, unsubscribing, and handlers that throw or re-enter are not modelled. `Program.cs` is console output around one subscription.
- The loop of `Resolve` sits in its own method, `AddRecords`, so that each proof stays small. `Resolve` keeps the two sysctl failure paths and turns the loop's result into its outcome.
- `Marshal.SizeOf` and the struct layouts are given as constants, with the field layout they follow written beside each. The fields the code never reads (`rt_metrics`, `sin_srcaddr`, `sdl_nlen` and the rest) only fix those offsets.
- The non-generic `IEnumerable.GetEnumerator` (ArpTable.cs:100-103) only forwards to the generic one.
- `OnEntryResolved` is `protected virtual` (ArpTable.cs:88), so a subclass can override it. The model has only the base behaviour: the handler is called when there is one.
- `GetEnumerator` is a lazy `yield` over the `List` (ArpTable.cs:95-99). Changing `entries` while an enumeration is under way makes the `List` enumerator throw `InvalidOperationException`. The model returns a snapshot of `entries` at the call, so it has no such case.
