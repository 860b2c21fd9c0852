/** The bytes of a snapshot file and of a frame, written out field by field. */
module FileLayout {
  import opened Machine
  import opened Types
  import opened Records
  import opened Wire
  import opened Crc
  import SnapshotFormat
  import Snapshots
  import Frames

  /** 64-bit words, each low byte first. */
  function Quads(xs: seq<u64>): Bytes {
    if xs == [] then [] else LittleEndian(xs[0], 8) + Quads(xs[1..])
  }

  /** A 32-bit length, then the bytes. */
  function Counted(s: Bytes): Bytes {
    LittleEndian(|s| % TWO32, 4) + s
  }

  function HeadWords(r: AllocationRecord): seq<u64> {
    [r.id, r.generation, r.requestedBytes, r.regionSize, r.offset, r.alignment, r.regionId, r.regionGeneration]
  }

  function TailWords(r: AllocationRecord): seq<u64> {
    [r.origin.worker, r.origin.workerBoot, r.origin.sourceBoot, r.origin.workload, r.origin.execution,
     r.relocationGeneration, r.origin.reservationGen, r.origin.resourceClaimGen, r.origin.placementGen,
     r.origin.policyGen]
  }

  function RecordBytes(r: AllocationRecord): Bytes {
    Quads(HeadWords(r))
    + ([r.origin.memClass, r.reclaimability, r.movability] + LittleEndian(r.pinCount, 4) + [r.residency, r.lifecycle])
    + Counted(r.origin.owner)
    + Quads(TailWords(r))
    + Counted(r.origin.backingRef)
    + [r.origin.provenance, if r.recoverable then 1 else 0]
  }

  function DomainBytes(d: MemoryDomain): Bytes {
    Quads([d.identity.domainId, d.identity.domainGeneration, d.identity.deviceId, d.identity.deviceGeneration,
           d.identity.totalCapacity, d.identity.allocatorVisibleCapacity, d.identity.reservedHeadroom,
           d.managedCapacity, d.currentCommitted, d.currentPhysicallyAllocated, d.currentResident,
           d.currentReclaimable, d.currentMovable, d.currentPinned, d.externalFragmentation])
    + [d.pressure, d.health, d.provenance]
    + Quads([d.watermarks.generation, d.watermarks.low, d.watermarks.high, d.watermarks.critical])
  }

  function RecordsBytes(v: seq<AllocationRecord>): Bytes {
    if v == [] then [] else RecordBytes(v[0]) + RecordsBytes(v[1..])
  }

  /** A 32-bit count, then the records. */
  function ListBytes(v: seq<AllocationRecord>): Bytes {
    LittleEndian(|v| % TWO32, 4) + RecordsBytes(v)
  }

  /** "SMSG", version 1, the domain, live and retired records, the two counters. */
  function BodyBytes(p: PersistSnapshot): Bytes {
    [0x53, 0x4D, 0x53, 0x47, 1, 0, 0, 0] + DomainBytes(p.domain) + ListBytes(p.records) + ListBytes(p.retired)
    + Quads([p.nextAllocId, p.historyCount])
  }

  // ------------------------------------------------------------- the proof

  function QuadVals(xs: seq<u64>): seq<Val> {
    seq(|xs|, i requires 0 <= i < |xs| => V64(xs[i]))
  }

  lemma {:induction false} QuadsEncode(xs: seq<u64>)
    ensures EncodeVals(QuadVals(xs)) == Quads(xs)
  {
    if xs != [] {
      assert QuadVals(xs)[1..] == QuadVals(xs[1..]);
      QuadsEncode(xs[1..]);
    }
  }

  lemma OneVal(v: Val)
    ensures EncodeVals([v]) == EncodeVal(v)
  {
    assert EncodeVals([v]) == EncodeVal(v) + EncodeVals([]);
  }

  lemma TwoBytes(a: u8, b: u8)
    ensures EncodeVals([V8(a), V8(b)]) == [a, b]
  {
    assert [V8(a), V8(b)][1..] == [V8(b)];
    OneVal(V8(b));
  }

  lemma ThreeBytes(a: u8, b: u8, c: u8)
    ensures EncodeVals([V8(a), V8(b), V8(c)]) == [a, b, c]
  {
    assert [V8(a), V8(b), V8(c)][1..] == [V8(b), V8(c)];
    TwoBytes(b, c);
  }

  /** Six pieces in a row. */
  lemma Six(a: seq<Val>, b: seq<Val>, c: seq<Val>, d: seq<Val>, e: seq<Val>, f: seq<Val>)
    ensures EncodeVals(a + b + c + d + e + f) ==
            EncodeVals(a) + EncodeVals(b) + EncodeVals(c) + EncodeVals(d) + EncodeVals(e) + EncodeVals(f)
  {
    EncodeConcat(a, b);
    EncodeConcat(a + b, c);
    EncodeConcat(a + b + c, d);
    EncodeConcat(a + b + c + d, e);
    EncodeConcat(a + b + c + d + e, f);
  }

  lemma ClassBytes(a: u8, b: u8, c: u8, w: u32, x: u8, y: u8)
    ensures EncodeVals([V8(a), V8(b), V8(c)] + [V32(w)] + [V8(x), V8(y)]) == [a, b, c] + LittleEndian(w, 4) + [x, y]
  {
    EncodeConcat([V8(a), V8(b), V8(c)], [V32(w)]);
    EncodeConcat([V8(a), V8(b), V8(c)] + [V32(w)], [V8(x), V8(y)]);
    ThreeBytes(a, b, c);
    OneVal(V32(w));
    TwoBytes(x, y);
  }

  function CodeVals(r: AllocationRecord): seq<Val> {
    [V8(r.origin.memClass), V8(r.reclaimability), V8(r.movability)] + [V32(r.pinCount)]
    + [V8(r.residency), V8(r.lifecycle)]
  }

  lemma RecordParts(r: AllocationRecord)
    ensures SnapshotFormat.RecordVals(r) ==
            QuadVals(HeadWords(r)) + CodeVals(r) + [VStr(r.origin.owner)] + QuadVals(TailWords(r))
            + [VStr(r.origin.backingRef)] + [V8(r.origin.provenance), V8(if r.recoverable then 1 else 0)]
  {
  }

  /** A record's fields are written in this order and these widths. */
  lemma RecordLayout(r: AllocationRecord)
    ensures EncodeVals(SnapshotFormat.RecordVals(r)) == RecordBytes(r)
  {
    var flag: u8 := if r.recoverable then 1 else 0;
    RecordParts(r);
    hide EncodeVals, Quads, QuadVals, SnapshotFormat.RecordVals, LittleEndian;
    QuadsEncode(HeadWords(r));
    QuadsEncode(TailWords(r));
    ClassBytes(r.origin.memClass, r.reclaimability, r.movability, r.pinCount, r.residency, r.lifecycle);
    OneVal(VStr(r.origin.owner));
    OneVal(VStr(r.origin.backingRef));
    TwoBytes(r.origin.provenance, flag);
    Six(QuadVals(HeadWords(r)), CodeVals(r), [VStr(r.origin.owner)], QuadVals(TailWords(r)),
        [VStr(r.origin.backingRef)], [V8(r.origin.provenance), V8(flag)]);
  }

  lemma DomainLayout(d: MemoryDomain)
    ensures EncodeVals(SnapshotFormat.DomainVals(d)) == DomainBytes(d)
  {
    var a := [d.identity.domainId, d.identity.domainGeneration, d.identity.deviceId, d.identity.deviceGeneration,
              d.identity.totalCapacity, d.identity.allocatorVisibleCapacity, d.identity.reservedHeadroom,
              d.managedCapacity, d.currentCommitted, d.currentPhysicallyAllocated, d.currentResident,
              d.currentReclaimable, d.currentMovable, d.currentPinned, d.externalFragmentation];
    var c := [d.watermarks.generation, d.watermarks.low, d.watermarks.high, d.watermarks.critical];
    var b := [V8(d.pressure), V8(d.health), V8(d.provenance)];
    assert SnapshotFormat.DomainVals(d) == QuadVals(a) + b + QuadVals(c);
    hide EncodeVals, Quads, QuadVals, SnapshotFormat.DomainVals;
    QuadsEncode(a);
    QuadsEncode(c);
    ThreeBytes(d.pressure, d.health, d.provenance);
    EncodeConcat(QuadVals(a), b);
    EncodeConcat(QuadVals(a) + b, QuadVals(c));
  }

  lemma {:induction false} RecordsLayout(v: seq<AllocationRecord>)
    ensures EncodeVals(SnapshotFormat.Flat(SnapshotFormat.RecordsVals(v))) == RecordsBytes(v)
  {
    hide RecordBytes, SnapshotFormat.RecordVals;
    var rs := SnapshotFormat.RecordsVals(v);
    if v != [] {
      assert rs[0] == SnapshotFormat.RecordVals(v[0]) && rs[1..] == SnapshotFormat.RecordsVals(v[1..]);
      RecordLayout(v[0]);
      RecordsLayout(v[1..]);
      EncodeConcat(rs[0], SnapshotFormat.Flat(rs[1..]));
    }
  }

  lemma ListLayout(v: seq<AllocationRecord>)
    ensures EncodeVals(SnapshotFormat.ListVals(SnapshotFormat.RecordsVals(v))) == ListBytes(v)
  {
    var rs := SnapshotFormat.RecordsVals(v);
    hide SnapshotFormat.RecordVals, SnapshotFormat.Flat, EncodeVals, RecordsBytes, LittleEndian;
    RecordsLayout(v);
    OneVal(V32(|rs| % TWO32));
    EncodeConcat([V32(|rs| % TWO32)], SnapshotFormat.Flat(rs));
  }

  lemma MagicBytes()
    ensures EncodeVals([V32(SnapshotFormat.MAGIC), V32(SnapshotFormat.VERSION)]) == [0x53, 0x4D, 0x53, 0x47, 1, 0, 0, 0]
  {
    assert [V32(SnapshotFormat.MAGIC), V32(SnapshotFormat.VERSION)][1..] == [V32(SnapshotFormat.VERSION)];
    OneVal(V32(SnapshotFormat.VERSION));
    assert LittleEndian(SnapshotFormat.MAGIC, 4) == [0x53, 0x4D, 0x53, 0x47];
    assert LittleEndian(1, 4) == [1, 0, 0, 0];
  }

  lemma Five(a: seq<Val>, b: seq<Val>, c: seq<Val>, d: seq<Val>, e: seq<Val>)
    ensures EncodeVals(a + b + c + d + e) ==
            EncodeVals(a) + EncodeVals(b) + EncodeVals(c) + EncodeVals(d) + EncodeVals(e)
  {
    EncodeConcat(a, b);
    EncodeConcat(a + b, c);
    EncodeConcat(a + b + c, d);
    EncodeConcat(a + b + c + d, e);
  }

  lemma BodyParts(p: PersistSnapshot)
    ensures SnapshotFormat.BodyVals(Snapshots.RawOf(p, 0)) ==
            [V32(SnapshotFormat.MAGIC), V32(SnapshotFormat.VERSION)] + SnapshotFormat.DomainVals(p.domain)
            + SnapshotFormat.ListVals(SnapshotFormat.RecordsVals(p.records))
            + SnapshotFormat.ListVals(SnapshotFormat.RecordsVals(p.retired))
            + QuadVals([p.nextAllocId, p.historyCount])
  {
    hide SnapshotFormat.DomainVals, SnapshotFormat.ListVals, SnapshotFormat.RecordsVals;
    assert QuadVals([p.nextAllocId, p.historyCount]) == [V64(p.nextAllocId), V64(p.historyCount)];
  }

  lemma BodyLayout(p: PersistSnapshot)
    ensures Snapshots.Body(p) == BodyBytes(p)
  {
    hide EncodeVals, SnapshotFormat.DomainVals, SnapshotFormat.ListVals, SnapshotFormat.RecordsVals, DomainBytes,
         ListBytes, Quads, QuadVals, SnapshotFormat.BodyVals;
    BodyParts(p);
    MagicBytes();
    DomainLayout(p.domain);
    ListLayout(p.records);
    ListLayout(p.retired);
    QuadsEncode([p.nextAllocId, p.historyCount]);
    Five([V32(SnapshotFormat.MAGIC), V32(SnapshotFormat.VERSION)], SnapshotFormat.DomainVals(p.domain),
         SnapshotFormat.ListVals(SnapshotFormat.RecordsVals(p.records)),
         SnapshotFormat.ListVals(SnapshotFormat.RecordsVals(p.retired)), QuadVals([p.nextAllocId, p.historyCount]));
  }

  /** A snapshot file is these bytes and their checksum. */
  lemma SnapshotLayout(p: PersistSnapshot)
    ensures Snapshots.Encode(p) == BodyBytes(p) + WordBytes(Crc32(BodyBytes(p)))
  {
    BodyLayout(p);
    hide Snapshots.Body, BodyBytes, Crc32, WordBytes;
  }

  /** A frame is "PMSG", version 1, the message byte and the counted payload, and the
      checksum of everything after the first four bytes. */
  lemma FrameFields(f: Frames.Frame)
    ensures var covered := [1, 0, 0, 0] + [f.msg] + Counted(f.payload);
            Frames.EncodeFrame(f) == [0x50, 0x4D, 0x53, 0x47] + covered + WordBytes(Crc32(covered))
  {
    var vals := [V32(1), V8(f.msg), VStr(f.payload)];
    assert vals == [V32(1)] + [V8(f.msg)] + [VStr(f.payload)];
    assert LittleEndian(0x47534d50, 4) == [0x50, 0x4D, 0x53, 0x47] && LittleEndian(1, 4) == [1, 0, 0, 0];
    OneVal(V32(1));
    OneVal(V8(f.msg));
    OneVal(VStr(f.payload));
    hide EncodeVals, LittleEndian, Crc32, WordBytes;
    EncodeConcat([V32(1)], [V8(f.msg)]);
    EncodeConcat([V32(1)] + [V8(f.msg)], [VStr(f.payload)]);
  }
}
