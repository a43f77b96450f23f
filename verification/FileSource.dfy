/** The frame source that imports a capture file. */
module FileSource {
  import opened Bytes
  import opened Pcapng

  datatype RawFrame = RawFrame(monoNanos: u64, ifaceId: u16, bytes: seq<byte>)

  datatype PcapFile = PcapFile(linkType: LinkType, records: seq<PcapRecord>)

  /** The record's wall time fits the 64-bit sum that computes it. */
  predicate WallFits(r: PcapRecord) { r.tsSecs * NANOS_PER_SEC + r.tsNanos < TWO_64 }

  predicate WallsFit(rs: seq<PcapRecord>) { forall i :: 0 <= i < |rs| ==> WallFits(rs[i]) }

  /** Product and sum wrap (release build). */
  function Wall(r: PcapRecord): u64 { (r.tsSecs * NANOS_PER_SEC + r.tsNanos) % TWO_64 }

  /** The imported wall time is the record's exactly when that fits 64 bits. */
  lemma WallExact(r: PcapRecord)
    ensures Wall(r) == r.tsSecs * NANOS_PER_SEC + r.tsNanos <==> WallFits(r)
  {
  }

  function Walls(rs: seq<PcapRecord>): (ws: seq<u64>)
    ensures |ws| == |rs| && forall i :: 0 <= i < |rs| ==> ws[i] == Wall(rs[i])
  {
    seq(|rs|, i requires 0 <= i < |rs| => Wall(rs[i]))
  }

  /** The clock that starts at the first record and never runs below zero. */
  function Times(rs: seq<PcapRecord>): (ts: seq<u64>)
    ensures |ts| == |rs| && forall i :: 0 <= i < |rs| ==> ts[i] == SatSub(Wall(rs[i]), Wall(rs[0]))
  {
    seq(|rs|, i requires 0 <= i < |rs| => SatSub(Wall(rs[i]), Wall(rs[0])))
  }

  function Frames(rs: seq<PcapRecord>, ifaceId: u16): (fs: seq<RawFrame>)
    ensures |fs| == |rs|
    ensures forall i :: 0 <= i < |rs| ==> fs[i] == RawFrame(Times(rs)[i], ifaceId, rs[i].data)
  {
    seq(|rs|, i requires 0 <= i < |rs| => RawFrame(Times(rs)[i], ifaceId, rs[i].data))
  }

  class FileCapture {
    const linkType: LinkType
    var frames: seq<RawFrame>
    var wallNanos: seq<u64>
    var cursor: nat
    var batchSize: nat

    ghost predicate Valid()
      reads this
    {
      cursor <= |frames| && |wallNanos| == |frames| && batchSize >= 1
    }

    constructor FromPcap(pcap: PcapFile, ifaceId: u16)
      ensures Valid() && cursor == 0 && batchSize == 64 && linkType == pcap.linkType
      ensures frames == Frames(pcap.records, ifaceId) && wallNanos == Walls(pcap.records)
    {
      var base: u64 := if pcap.records == [] then 0 else Wall(pcap.records[0]);
      var fs: seq<RawFrame> := [];
      var ws: seq<u64> := [];
      for i := 0 to |pcap.records|
        invariant |fs| == i && fs == Frames(pcap.records, ifaceId)[..i]
        invariant |ws| == i && ws == Walls(pcap.records)[..i]
      {
        var wall := Wall(pcap.records[i]);
        fs := fs + [RawFrame(SatSub(wall, base), ifaceId, pcap.records[i].data)];
        ws := ws + [wall];
      }
      linkType := pcap.linkType;
      frames := fs;
      wallNanos := ws;
      cursor := 0;
      batchSize := 64;
    }

    method SetBatchSize(n: nat)
      requires Valid()
      modifies this`batchSize
      ensures Valid() && batchSize == Max(n, 1)
    {
      batchSize := Max(n, 1);
    }

    method NextBatch() returns (batch: seq<RawFrame>)
      requires Valid()
      modifies this`cursor
      ensures Valid() && old(cursor) <= cursor
      ensures batch == frames[old(cursor)..cursor]
      ensures |batch| == Min(batchSize, |frames| - old(cursor))
    {
      if cursor >= |frames| {
        return [];
      }
      var end := Min(cursor + batchSize, |frames|);
      batch := frames[cursor..end];
      cursor := end;
    }

    /** Calling `NextBatch` until it comes back empty hands out every remaining frame once, in order. */
    method Drain() returns (all: seq<RawFrame>)
      requires Valid()
      modifies this`cursor
      ensures Valid() && all == frames[old(cursor)..] && cursor == |frames|
    {
      all := [];
      while true
        invariant Valid() && old(cursor) <= cursor
        invariant all == frames[old(cursor)..cursor]
        decreases |frames| - cursor
      {
        var batch := NextBatch();
        if batch == [] {
          break;
        }
        all := all + batch;
      }
    }
  }
}
