/**
 * ArpTable: resolves the kernel's ARP cache into a list of entries, announcing
 * each entry to the EntryResolved handler as it is added.
 */
module Arp {
  import opened Wrappers
  import opened Layout
  import opened RecordDecode
  import opened RecordWalk

  /**
   * What one sysctl(CTL_NET, PF_ROUTE, 0, AF_INET, NET_RT_FLAGS, RTF_LLINFO)
   * call reports: a negative return, or what it returned (the size estimate
   * for the first call, the routing table bytes for the second).
   */
  datatype SysctlReply<T> = Failed | Returned(value: T)

  /** The exceptions Resolve lets escape. */
  datatype ResolveError =
    | SizeEstimateFailed              // the first sysctl call failed
    | RetrieveFailed                  // the second sysctl call failed
    | CopyFailed(cause: DecodeError)  // Array.Copy rejected a record's sdl_alen

  datatype Outcome = Resolved | Threw(error: ResolveError)

  class ArpTable {
    /** The entries list, in the order Resolve added them. */
    var entries: seq<Entry>
    /** Whether EntryResolved has a handler (is not null). */
    var hasHandler: bool
    /** Every entry EntryResolved's handler has been called with, in call order. */
    var delivered: seq<Entry>

    constructor ()
      ensures entries == [] && !hasHandler && delivered == []
    {
      entries := [];
      hasHandler := false;
      delivered := [];
    }

    /** EntryResolved += handler. */
    method AddEntryResolvedHandler()
      modifies this
      ensures hasHandler
      ensures entries == old(entries) && delivered == old(delivered)
    {
      hasHandler := true;
    }

    /** entries.Add(entry). */
    method AddEntry(entry: Entry)
      modifies this
      ensures entries == old(entries) + [entry]
      ensures hasHandler == old(hasHandler) && delivered == old(delivered)
    {
      entries := entries + [entry];
    }

    /** Calls the EntryResolved handler with `entry`, if there is one. */
    method OnEntryResolved(entry: Entry)
      modifies this
      ensures entries == old(entries) && hasHandler == old(hasHandler)
      ensures delivered == if hasHandler then old(delivered) + [entry] else old(delivered)
    {
      if hasHandler {
        delivered := delivered + [entry];
      }
    }

    /** What enumerating the table yields: the entries, in list order. */
    method GetEnumerator() returns (yielded: seq<Entry>)
      ensures yielded == entries
    {
      yielded := [];
      var i := 0;
      while i < |entries|
        invariant i <= |entries|
        invariant yielded == entries[..i]
      {
        yielded := yielded + [entries[i]];
        i := i + 1;
      }
    }

    /**
     * Queries the routing table and appends one entry per record, announcing
     * each. `probe` and `fetch` are what the two sysctl calls report; the
     * walk's bound is the length the second call returned. A failed call
     * throws before anything is added; a record whose sdl_alen exceeds twelve
     * throws after the entries of the records before it were added and
     * announced.
     */
    method Resolve(probe: SysctlReply<nat>, fetch: SysctlReply<seq<byte>>) returns (outcome: Outcome)
      requires probe.Returned? && fetch.Returned? ==> Walkable(fetch.value, 0)
      modifies this
      ensures hasHandler == old(hasHandler)
      ensures probe.Failed? ==>
        outcome == Threw(SizeEstimateFailed) && entries == old(entries) && delivered == old(delivered)
      ensures probe.Returned? && fetch.Failed? ==>
        outcome == Threw(RetrieveFailed) && entries == old(entries) && delivered == old(delivered)
      ensures probe.Returned? && fetch.Returned? ==>
        var scan := ScanFrom(fetch.value, 0);
        entries == old(entries) + scan.entries &&
        delivered == old(delivered) + (if hasHandler then scan.entries else []) &&
        outcome == (if scan.fault.None? then Resolved else Threw(CopyFailed(scan.fault.value)))
    {
      if probe.Failed? {
        return Threw(SizeEstimateFailed);
      }
      if fetch.Failed? {
        return Threw(RetrieveFailed);
      }
      var fault := AddRecords(fetch.value);
      ScanAfterIsScanFrom(fetch.value, 0, old(entries));
      ScanAfterIsScanFrom(fetch.value, 0, old(delivered));
      outcome := if fault.None? then Resolved else Threw(CopyFailed(fault.value));
    }

    /**
     * The loop of Resolve: from the start of `buf`, adds and announces the
     * entry of each record and moves on by its rtm_msglen, until the cursor
     * reaches the end of `buf` or a record's copy fails.
     */
    method AddRecords(buf: seq<byte>) returns (fault: Option<DecodeError>)
      requires Walkable(buf, 0)
      modifies this
      ensures hasHandler == old(hasHandler)
      ensures entries == ScanAfter(buf, 0, old(entries)).entries
      ensures delivered == if hasHandler then ScanAfter(buf, 0, old(delivered)).entries else old(delivered)
      ensures fault == ScanAfter(buf, 0, old(entries)).fault
    {
      var next: nat := 0;
      while next < |buf|
        invariant Walkable(buf, next)
        invariant ScanAfter(buf, next, entries) == ScanAfter(buf, 0, old(entries))
        invariant hasHandler == old(hasHandler)
        invariant hasHandler ==> ScanAfter(buf, next, delivered) == ScanAfter(buf, 0, old(delivered))
        invariant !hasHandler ==> delivered == old(delivered)
        decreases |buf| - next
      {
        var decoded := Decode(buf[next..]);
        if decoded.Err? {
          return Some(decoded.error);
        }
        var entry := decoded.value;
        AddEntry(entry);
        OnEntryResolved(entry);
        next := next + MsgLen(buf, next);
      }
      return None;
    }
  }
}
