/**
 * The walk over the routing table: records follow one another, each
 * beginning rtm_msglen bytes after the one before, from the start of the
 * buffer until the cursor reaches the buffer's end.
 */
module RecordWalk {
  import opened Wrappers
  import opened Layout
  import opened RecordDecode

  /**
   * The walk from `at` ends, and reads only bytes of `buf`: the three structs
   * of every record it visits lie inside the buffer, and every visited record
   * whose copy succeeds (so that the walk goes on past it) has a nonzero
   * rtm_msglen.
   * A record whose copy fails ends the walk with an exception, so nothing is
   * asked of its rtm_msglen or of what follows it. This is an assumption
   * about what the kernel returns; the walk itself checks none of it.
   */
  predicate Walkable(buf: seq<byte>, at: nat)
    decreases |buf| - at
  {
    at >= |buf| ||
    (at + RecordExtent <= |buf| &&
     (CopyFails(buf, at) || (MsgLen(buf, at) > 0 && Walkable(buf, at + MsgLen(buf, at)))))
  }

  /**
   * The framing a routing-table dump is meant to have: the records tile the
   * buffer from `at` to its end, each at least as long as the three structs.
   */
  predicate WellFramed(buf: seq<byte>, at: nat)
    decreases |buf| - at
  {
    at == |buf| ||
    (at + 2 <= |buf| && MsgLen(buf, at) >= RecordExtent && at + MsgLen(buf, at) <= |buf| &&
     WellFramed(buf, at + MsgLen(buf, at)))
  }

  /** A well-framed buffer gives the walk all it relies on. */
  lemma {:induction false} WellFramedIsWalkable(buf: seq<byte>, at: nat)
    requires WellFramed(buf, at)
    decreases |buf| - at
    ensures Walkable(buf, at)
  {
    if at < |buf| && !CopyFails(buf, at) {
      WellFramedIsWalkable(buf, at + MsgLen(buf, at));
    }
  }

  /**
   * The offsets at which the walk from `at` reads a record, in the order it
   * visits them; a record whose copy fails is the last one read.
   */
  function Offsets(buf: seq<byte>, at: nat): (offs: seq<nat>)
    requires Walkable(buf, at)
    decreases |buf| - at
    ensures forall i :: 0 <= i < |offs| ==> offs[i] + RecordExtent <= |buf|
  {
    if at >= |buf| then []
    else if CopyFails(buf, at) then [at]
    else [at] + Offsets(buf, at + MsgLen(buf, at))
  }

  /** Every visited record but the last has a successful copy and leads to the next, its rtm_msglen further on. */
  lemma {:induction false} OffsetsSteps(buf: seq<byte>, at: nat)
    requires Walkable(buf, at)
    decreases |buf| - at
    ensures var offs := Offsets(buf, at);
      forall i :: 0 <= i < |offs| - 1 ==>
        !CopyFails(buf, offs[i]) && MsgLen(buf, offs[i]) > 0 && offs[i + 1] == offs[i] + MsgLen(buf, offs[i])
  {
    if at < |buf| && !CopyFails(buf, at) {
      var next := at + MsgLen(buf, at);
      OffsetsSteps(buf, next);
      var offs, rest := Offsets(buf, at), Offsets(buf, next);
      assert offs == [at] + rest;
      if |rest| > 0 {
        assert offs[1] == rest[0] == next by { OffsetsStart(buf, next); }
      }
      forall i | 1 <= i < |offs| - 1
        ensures !CopyFails(buf, offs[i]) && MsgLen(buf, offs[i]) > 0 && offs[i + 1] == offs[i] + MsgLen(buf, offs[i])
      {
        assert offs[i] == rest[i - 1] && offs[i + 1] == rest[i];
      }
    }
  }

  /** The walk from `at` visits nothing exactly when `at` is at or past the end, and otherwise starts at `at`. */
  lemma OffsetsStart(buf: seq<byte>, at: nat)
    requires Walkable(buf, at)
    ensures var offs := Offsets(buf, at);
      (|offs| == 0 <==> at >= |buf|) && (|offs| > 0 ==> offs[0] == at)
  {
  }

  /** The last visited record either fails its copy or steps to an offset at or past the end. */
  lemma {:induction false} OffsetsLast(buf: seq<byte>, at: nat)
    requires Walkable(buf, at)
    decreases |buf| - at
    ensures var offs := Offsets(buf, at);
      |offs| > 0 ==> var last := offs[|offs| - 1];
        CopyFails(buf, last) || (MsgLen(buf, last) > 0 && last + MsgLen(buf, last) >= |buf|)
  {
    if at < |buf| && !CopyFails(buf, at) {
      var next := at + MsgLen(buf, at);
      OffsetsLast(buf, next);
      var offs, rest := Offsets(buf, at), Offsets(buf, next);
      assert offs == [at] + rest;
      if |rest| > 0 {
        assert offs[|offs| - 1] == rest[|rest| - 1];
      }
    }
  }

  /**
   * The walk starts at `at` and visits only offsets before the end of the
   * buffer. Every record but the last has a successful copy and leads to the
   * next, its rtm_msglen further on. The last one either fails its copy or
   * steps to an offset at or past the end.
   */
  lemma OffsetsShape(buf: seq<byte>, at: nat)
    requires Walkable(buf, at)
    ensures var offs := Offsets(buf, at);
      (|offs| == 0 <==> at >= |buf|) &&
      (|offs| > 0 ==> offs[0] == at) &&
      (forall i :: 0 <= i < |offs| ==> offs[i] < |buf|) &&
      (forall i :: 0 <= i < |offs| - 1 ==>
        !CopyFails(buf, offs[i]) && MsgLen(buf, offs[i]) > 0 && offs[i + 1] == offs[i] + MsgLen(buf, offs[i])) &&
      (|offs| > 0 ==> var last := offs[|offs| - 1];
        CopyFails(buf, last) || (MsgLen(buf, last) > 0 && last + MsgLen(buf, last) >= |buf|))
  {
    OffsetsStart(buf, at);
    OffsetsSteps(buf, at);
    OffsetsLast(buf, at);
  }

  /** What the walk produces: the entries appended, and the exception that stopped it, if any. */
  datatype Scan = Scan(entries: seq<Entry>, fault: Option<DecodeError>)

  /** The walk from `at`: one entry per record, until the buffer ends or a record fails to decode. */
  function ScanFrom(buf: seq<byte>, at: nat): (s: Scan)
    requires Walkable(buf, at)
    ensures s.fault.Some? ==> s.fault.value.length > SdlDataCapacity
    decreases |buf| - at
  {
    if at >= |buf| then Scan([], None)
    else
      match Decode(buf[at..])
      case Err(e) => Scan([], Some(e))
      case Ok(entry) =>
        var rest := ScanFrom(buf, at + MsgLen(buf, at));
        Scan([entry] + rest.entries, rest.fault)
  }

  /**
   * The same walk told the way Resolve's loop runs it: `done` holds the
   * entries already added, and each record's entry is appended to it.
   */
  function ScanAfter(buf: seq<byte>, at: nat, done: seq<Entry>): (s: Scan)
    requires Walkable(buf, at)
    ensures |done| <= |s.entries| && s.entries[..|done|] == done
    decreases |buf| - at
  {
    if at >= |buf| then Scan(done, None)
    else
      match Decode(buf[at..])
      case Err(e) => Scan(done, Some(e))
      case Ok(entry) => ScanAfter(buf, at + MsgLen(buf, at), done + [entry])
  }

  /** Carrying the entries already added along the walk only puts them in front. */
  lemma {:induction false} ScanAfterIsScanFrom(buf: seq<byte>, at: nat, done: seq<Entry>)
    requires Walkable(buf, at)
    ensures ScanAfter(buf, at, done) == Scan(done + ScanFrom(buf, at).entries, ScanFrom(buf, at).fault)
    decreases |buf| - at
  {
    if at < |buf| && Decode(buf[at..]).Ok? {
      var entry := Decode(buf[at..]).value;
      var next := at + MsgLen(buf, at);
      ScanAfterIsScanFrom(buf, next, done + [entry]);
      assert done + [entry] + ScanFrom(buf, next).entries == done + ([entry] + ScanFrom(buf, next).entries);
    }
  }

  /**
   * The walk yields the decoded entry of every visited record, in visiting
   * order. It either yields one entry per visited record, or stops with the
   * error of the last visited record, which is the first that fails.
   */
  lemma {:induction false} ScanFollowsOffsets(buf: seq<byte>, at: nat)
    requires Walkable(buf, at)
    decreases |buf| - at
    ensures var offs, s := Offsets(buf, at), ScanFrom(buf, at);
      |s.entries| <= |offs| &&
      (forall i :: 0 <= i < |s.entries| ==> Decode(buf[offs[i]..]) == Ok(s.entries[i])) &&
      (s.fault.None? <==> |s.entries| == |offs|) &&
      (s.fault.Some? ==> |s.entries| == |offs| - 1 && Decode(buf[offs[|offs| - 1]..]) == Err(s.fault.value))
  {
    if at < |buf| {
      DecodeFailsAt(buf, at);
    }
    if at < |buf| && Decode(buf[at..]).Ok? {
      var next := at + MsgLen(buf, at);
      ScanFollowsOffsets(buf, next);
      var offs, s := Offsets(buf, at), ScanFrom(buf, at);
      var restOffs, rest := Offsets(buf, next), ScanFrom(buf, next);
      assert offs == [at] + restOffs;
      assert s.entries == [Decode(buf[at..]).value] + rest.entries;
      forall i | 0 <= i < |s.entries|
        ensures Decode(buf[offs[i]..]) == Ok(s.entries[i])
      {
        if i > 0 {
          assert offs[i] == restOffs[i - 1] && s.entries[i] == rest.entries[i - 1];
        }
      }
      if s.fault.Some? {
        assert offs[|offs| - 1] == restOffs[|restOffs| - 1];
      }
    }
  }

  /** The walk ends without an exception exactly when every visited record decodes. */
  lemma ScanCompletes(buf: seq<byte>)
    requires Walkable(buf, 0)
    ensures var offs := Offsets(buf, 0);
      ScanFrom(buf, 0).fault.None? <==> forall i :: 0 <= i < |offs| ==> Decode(buf[offs[i]..]).Ok?
  {
    var offs, s := Offsets(buf, 0), ScanFrom(buf, 0);
    ScanFollowsOffsets(buf, 0);
    if s.fault.None? {
      forall i | 0 <= i < |offs|
        ensures Decode(buf[offs[i]..]).Ok?
      {
        assert Decode(buf[offs[i]..]) == Ok(s.entries[i]);
      }
    }
  }

  /** rtm_msglen reads the same after bytes are put in front of the buffer. */
  lemma MsgLenAfterPrefix(p: seq<byte>, s: seq<byte>, at: nat)
    requires at + 2 <= |s|
    ensures MsgLen(p + s, |p| + at) == MsgLen(s, at)
  {
    assert (p + s)[|p| + at] == s[at] && (p + s)[|p| + at + 1] == s[at + 1];
  }

  /** Array.Copy rejects the same record once bytes are put in front of the buffer. */
  lemma CopyFailsAfterPrefix(p: seq<byte>, s: seq<byte>, at: nat)
    requires at + RecordExtent <= |s|
    ensures CopyFails(p + s, |p| + at) == CopyFails(s, at)
  {
    assert (p + s)[|p| + at + AddressLengthAt] == s[at + AddressLengthAt];
  }

  /** Bytes in front of the buffer do not change whether the walk ends within it. */
  lemma {:induction false} WalkableAfterPrefix(p: seq<byte>, s: seq<byte>, at: nat)
    decreases |s| - at
    ensures Walkable(p + s, |p| + at) <==> Walkable(s, at)
  {
    if at < |s| && at + RecordExtent <= |s| {
      MsgLenAfterPrefix(p, s, at);
      CopyFailsAfterPrefix(p, s, at);
      if !CopyFails(s, at) && MsgLen(s, at) > 0 {
        WalkableAfterPrefix(p, s, at + MsgLen(s, at));
      }
    }
  }

  /** Every offset of `offs` moved `k` further on. */
  function Shift(offs: seq<nat>, k: nat): (moved: seq<nat>)
    ensures |moved| == |offs|
    ensures forall i :: 0 <= i < |offs| ==> moved[i] == k + offs[i]
  {
    if offs == [] then [] else [k + offs[0]] + Shift(offs[1..], k)
  }

  /** Shifting a sequence with one more offset in front puts that offset, moved, in front. */
  lemma ShiftCons(first: nat, offs: seq<nat>, k: nat)
    ensures Shift([first] + offs, k) == [k + first] + Shift(offs, k)
  {
    assert ([first] + offs)[1..] == offs;
  }

  /** The walk over `p + s` from `|p| + at` visits the walk's offsets over `s` from `at`, moved by `|p|`. */
  lemma {:induction false} OffsetsShifted(p: seq<byte>, s: seq<byte>, at: nat)
    requires Walkable(s, at)
    decreases |s| - at
    ensures Walkable(p + s, |p| + at)
    ensures Offsets(p + s, |p| + at) == Shift(Offsets(s, at), |p|)
  {
    WalkableAfterPrefix(p, s, at);
    if at < |s| {
      assert (p + s)[|p| + at + AddressLengthAt] == s[at + AddressLengthAt];
      if !CopyFails(s, at) {
        MsgLenAfterPrefix(p, s, at);
        OffsetsShifted(p, s, at + MsgLen(s, at));
        ShiftCons(at, Offsets(s, at + MsgLen(s, at)), |p|);
      }
    }
  }

  /** Bytes in front of the buffer shift every visited offset by their length. */
  lemma OffsetsAfterPrefix(p: seq<byte>, s: seq<byte>, at: nat)
    requires Walkable(s, at)
    ensures Walkable(p + s, |p| + at)
    ensures |Offsets(p + s, |p| + at)| == |Offsets(s, at)|
    ensures forall i :: 0 <= i < |Offsets(s, at)| ==> Offsets(p + s, |p| + at)[i] == |p| + Offsets(s, at)[i]
  {
    OffsetsShifted(p, s, at);
  }

  /** A record decodes the same once bytes are put in front of the buffer. */
  lemma DecodeAfterPrefix(p: seq<byte>, s: seq<byte>, at: nat)
    requires at + RecordExtent <= |s|
    ensures Decode((p + s)[|p| + at..]) == Decode(s[at..])
  {
    assert (p + s)[|p| + at..] == s[at..];
  }

  /** Bytes in front of the buffer do not change the entries the walk yields. */
  lemma {:induction false} ScanFromAfterPrefix(p: seq<byte>, s: seq<byte>, at: nat)
    requires Walkable(s, at)
    decreases |s| - at
    ensures Walkable(p + s, |p| + at)
    ensures ScanFrom(p + s, |p| + at) == ScanFrom(s, at)
  {
    WalkableAfterPrefix(p, s, at);
    if at < |s| {
      DecodeAfterPrefix(p, s, at);
    }
    if at < |s| && Decode(s[at..]).Ok? {
      MsgLenAfterPrefix(p, s, at);
      ScanFromAfterPrefix(p, s, at + MsgLen(s, at));
      var rest := ScanFrom(s, at + MsgLen(s, at));
      assert ScanFrom(s, at) == match Decode(s[at..])
        case Err(e) => Scan([], Some(e))
        case Ok(entry) => Scan([entry] + rest.entries, rest.fault);
    }
  }

  /** A record at the start of the buffer reads and decodes as it does alone. */
  lemma FirstRecord(rec: seq<byte>, tail: seq<byte>)
    requires |rec| >= RecordExtent
    ensures MsgLen(rec + tail, 0) == MsgLen(rec, 0)
    ensures Decode((rec + tail)[0..]) == Decode(rec)
  {
    var buf := rec + tail;
    assert buf[0] == rec[0] && buf[1] == rec[1];
    assert buf[0..][..RecordExtent] == rec[..RecordExtent];
    DecodeReadsOnlyExtent(buf[0..], rec);
  }

  /** A buffer made of the given records, one after the other. */
  function Flatten(recs: seq<seq<byte>>): (buf: seq<byte>)
  {
    if recs == [] then [] else recs[0] + Flatten(recs[1..])
  }

  /** Flatten of the first i + 1 records is the first record followed by Flatten of the first i others. */
  lemma FlattenPrefix(recs: seq<seq<byte>>, i: nat)
    requires 0 < i <= |recs|
    ensures Flatten(recs[..i]) == recs[0] + Flatten(recs[1..][..i - 1])
  {
    assert recs[..i][1..] == recs[1..][..i - 1];
  }

  /**
   * Over a buffer made of k records, each holding the three structs,
   * carrying its own length in rtm_msglen and decoding, the walk is defined
   * and visits exactly the k record starts.
   */
  lemma {:induction false} WalkOfRecords(recs: seq<seq<byte>>)
    requires forall i :: 0 <= i < |recs| ==> |recs[i]| >= RecordExtent && MsgLen(recs[i], 0) == |recs[i]|
    requires forall i :: 0 <= i < |recs| ==> Decode(recs[i]).Ok?
    ensures Walkable(Flatten(recs), 0)
    ensures |Offsets(Flatten(recs), 0)| == |recs|
    ensures forall i :: 0 <= i < |recs| ==> Offsets(Flatten(recs), 0)[i] == |Flatten(recs[..i])|
  {
    if recs != [] {
      var rec, rest := recs[0], recs[1..];
      var buf, tail := Flatten(recs), Flatten(rest);
      assert buf == rec + tail;
      WalkOfRecords(rest);
      OffsetsAfterPrefix(rec, tail, 0);
      FirstRecord(rec, tail);
      var offs, shifted, restOffs := Offsets(buf, 0), Offsets(buf, |rec|), Offsets(tail, 0);
      assert offs == [0] + shifted;
      forall i | 0 <= i < |recs|
        ensures offs[i] == |Flatten(recs[..i])|
      {
        if i > 0 {
          FlattenPrefix(recs, i);
          assert offs[i] == shifted[i - 1] == |rec| + restOffs[i - 1];
        }
      }
    }
  }

  /** The walk over a record carrying its own length, followed by more bytes, decodes it and goes on after it. */
  lemma ScanOfFirstRecord(rec: seq<byte>, tail: seq<byte>)
    requires |rec| >= RecordExtent && MsgLen(rec, 0) == |rec|
    requires Walkable(tail, 0)
    ensures Walkable(rec + tail, 0)
    ensures ScanFrom(rec + tail, 0) == match Decode(rec)
      case Err(e) => Scan([], Some(e))
      case Ok(entry) => Scan([entry] + ScanFrom(tail, 0).entries, ScanFrom(tail, 0).fault)
  {
    ScanFromAfterPrefix(rec, tail, 0);
    FirstRecord(rec, tail);
    var buf := rec + tail;
    assert MsgLen(buf, 0) == |rec|;
    match Decode(rec)
    case Err(e) =>
      assert ScanFrom(buf, 0) == Scan([], Some(e));
    case Ok(entry) =>
      assert ScanFrom(buf, |rec|) == ScanFrom(tail, 0);
  }

  /**
   * Over a buffer made of k such records that all decode, the walk yields
   * exactly their k entries, in buffer order.
   */
  lemma {:induction false} ScanOfRecords(recs: seq<seq<byte>>)
    requires forall i :: 0 <= i < |recs| ==> |recs[i]| >= RecordExtent && MsgLen(recs[i], 0) == |recs[i]|
    requires forall i :: 0 <= i < |recs| ==> Decode(recs[i]).Ok?
    ensures Walkable(Flatten(recs), 0)
    ensures var s := ScanFrom(Flatten(recs), 0);
      s.fault.None? && |s.entries| == |recs| &&
      forall i :: 0 <= i < |recs| ==> s.entries[i] == Decode(recs[i]).value
  {
    WalkOfRecords(recs);
    if recs != [] {
      var rec, rest := recs[0], recs[1..];
      forall i | 0 <= i < |rest|
        ensures |rest[i]| >= RecordExtent && MsgLen(rest[i], 0) == |rest[i]| && Decode(rest[i]).Ok?
      {
        assert rest[i] == recs[i + 1];
      }
      ScanOfRecords(rest);
      ScanOfFirstRecord(rec, Flatten(rest));
      var s, restScan := ScanFrom(Flatten(recs), 0), ScanFrom(Flatten(rest), 0);
      assert s.entries == [Decode(rec).value] + restScan.entries;
      forall i | 0 <= i < |recs|
        ensures s.entries[i] == Decode(recs[i]).value
      {
        if i > 0 { assert s.entries[i] == restScan.entries[i - 1] && recs[i] == rest[i - 1]; }
      }
    }
  }

  /**
   * Records laid one after the other, each carrying an entry of `es` in the
   * fields Decode reads and its own length in rtm_msglen, every other byte
   * zero, walk back to `es`.
   */
  lemma ResolveEncodedRecords(es: seq<Entry>)
    requires forall i :: 0 <= i < |es| ==> Encodable(es[i])
    ensures var buf := Flatten(seq(|es|, i requires 0 <= i < |es| => EncodeRecord(es[i])));
      Walkable(buf, 0) && ScanFrom(buf, 0) == Scan(es, None)
  {
    var recs := seq(|es|, i requires 0 <= i < |es| => EncodeRecord(es[i]));
    forall i | 0 <= i < |recs|
      ensures |recs[i]| >= RecordExtent && MsgLen(recs[i], 0) == |recs[i]| && Decode(recs[i]) == Ok(es[i])
    {
      DecodeEncode(es[i]);
    }
    ScanOfRecords(recs);
  }
}
