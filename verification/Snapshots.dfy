/** What encoding and decoding a snapshot mean, and the laws they satisfy. */
module Snapshots {
  import opened Machine
  import opened Types
  import opened Records
  import opened Wire
  import opened Crc
  import opened SnapshotFormat
  import ArenaSpec

  // ----------------------------------------------------------- validation

  /** What the decoder asks of a single record. */
  predicate ValidRecord(r: AllocationRecord, managed: u64) {
    && r.requestedBytes != 0
    && IsPow2(r.alignment)
    && r.regionSize >= r.requestedBytes
    && r.offset <= managed && r.regionSize <= managed - r.offset
    && r.offset % r.alignment == 0
    && r.origin.memClass <= CLASS_INTERNAL
    && r.reclaimability <= BEST_EFFORT
    && r.movability <= NONMOVABLE
    && r.residency <= RESIDENCY_REVALIDATION_REQUIRED
    && r.lifecycle <= LIFECYCLE_RETIRED
    && r.origin.provenance <= RECONSTRUCTED
    && r.generation != 0
  }

  predicate AllValid(v: seq<AllocationRecord>, managed: u64) {
    forall i | 0 <= i < |v| :: ValidRecord(v[i], managed)
  }

  predicate DistinctIds(v: seq<AllocationRecord>) {
    forall i, j | 0 <= i < j < |v| :: v[i].id != v[j].id
  }

  predicate RecordsApart(x: AllocationRecord, y: AllocationRecord) {
    x.offset + x.regionSize <= y.offset || y.offset + y.regionSize <= x.offset
  }

  predicate PairwiseApart(v: seq<AllocationRecord>) {
    forall i, j | 0 <= i < j < |v| :: RecordsApart(v[i], v[j])
  }

  /** The structural rules, over unbounded integers and all pairs. */
  predicate Structural(p: PersistSnapshot) {
    && AllValid(p.records, p.domain.managedCapacity) && AllValid(p.retired, p.domain.managedCapacity)
    && DistinctIds(p.records + p.retired)
    && PairwiseApart(p.records)
  }

  // ------------------------------------------------------ encode, decode

  function Body(p: PersistSnapshot): Bytes {
    EncodeVals(BodyVals(RawOf(p, 0)))
  }

  function RawOf(p: PersistSnapshot, stored: u32): Raw {
    Raw(DomainVals(p.domain), RecordsVals(p.records), RecordsVals(p.retired), p.nextAllocId, p.historyCount, stored)
  }

  function SnapshotOf(raw: Raw): PersistSnapshot
    requires |raw.domain| == |DOMAIN| && AllSized(raw.records) && AllSized(raw.retired)
  {
    PersistSnapshot(DomainOf(raw.domain), RecordsOf(raw.records), RecordsOf(raw.retired), raw.nextAllocId,
                    raw.historyCount)
  }

  function Encode(p: PersistSnapshot): Bytes {
    Body(p) + WordBytes(Crc32(Body(p)))
  }

  predicate Checked(b: Bytes, stored: u32) {
    |b| >= 4 && stored == WordValue(Crc32(b[..|b| - 4]))
  }

  function Decode(b: Bytes): Result<PersistSnapshot> {
    match Parse(b)
    case None => Err(INTERNAL_ERROR)
    case Some((raw, rest)) =>
      var p := SnapshotOf(raw);
      if rest == [] && p.domain.watermarks.Valid() && Checked(b, raw.stored) && Structural(p) then Ok(p)
      else Err(INTERNAL_ERROR)
  }

  // ----------------------------------------------------------- round trip

  predicate TextsFit(r: AllocationRecord) {
    |r.origin.owner| <= MAX_STRING && |r.origin.backingRef| <= MAX_STRING
  }

  predicate AllTextsFit(v: seq<AllocationRecord>) {
    forall i | 0 <= i < |v| :: TextsFit(v[i])
  }

  /** The snapshots the format can hold. */
  predicate Storable(p: PersistSnapshot) {
    && p.domain.watermarks.Valid()
    && |p.records| <= MAX_RECORDS && |p.retired| <= MAX_RECORDS
    && AllTextsFit(p.records) && AllTextsFit(p.retired)
    && Structural(p)
  }

  lemma TextFields(i: nat)
    requires i < |RECORD| && RECORD[i] == KStr
    ensures i == 14 || i == 25
  {
  }

  lemma RecordFits(r: AllocationRecord)
    ensures AllFit(RecordVals(r)) <==> TextsFit(r)
  {
    var v := RecordVals(r);
    assert v[14] == VStr(r.origin.owner) && v[25] == VStr(r.origin.backingRef);
    RecordOfVals(r);
    ShapedSize(v, RECORD);
    hide RecordVals, RecordOf;
    assert AllFit(v) ==> Fit(v[14]) && Fit(v[25]);
    forall i | 0 <= i < |v| && TextsFit(r) ensures Fit(v[i]) {
      assert KindOf(v[i]) == RECORD[i];
      if v[i].VStr? {
        TextFields(i);
      }
    }
  }

  lemma RecordsOfVals(v: seq<AllocationRecord>)
    ensures AllSized(RecordsVals(v)) && RecordsOf(RecordsVals(v)) == v
    ensures RecordsFit(RecordsVals(v)) <==> AllTextsFit(v)
  {
    hide RecordVals, RecordOf, AllFit, TextsFit, Shaped;
    forall i | 0 <= i < |v|
      ensures |RecordVals(v[i])| == |RECORD| && RecordOf(RecordVals(v[i])) == v[i] && Shaped(RecordVals(v[i]), RECORD)
      ensures AllFit(RecordVals(v[i])) <==> TextsFit(v[i])
    {
      RecordOfVals(v[i]);
      RecordFits(v[i]);
      ShapedSize(RecordVals(v[i]), RECORD);
    }
    assert forall i | 0 <= i < |v| :: RecordsVals(v)[i] == RecordVals(v[i]);
  }

  lemma SnapshotOfRaw(p: PersistSnapshot, stored: u32)
    ensures var raw := RawOf(p, stored);
            && |raw.domain| == |DOMAIN| && AllSized(raw.records) && AllSized(raw.retired)
            && SnapshotOf(raw) == p
            && (Wellformed(raw) <==>
                  && |p.records| <= MAX_RECORDS && |p.retired| <= MAX_RECORDS
                  && AllTextsFit(p.records) && AllTextsFit(p.retired))
  {
    hide RecordsVals, RecordsOf, RecordsFit, AllTextsFit, DomainVals, DomainOf, AllSized, Shaped;
    RecordsOfVals(p.records);
    RecordsOfVals(p.retired);
    DomainOfVals(p.domain);
    ValsCounts(p);
  }

  lemma ValsCounts(p: PersistSnapshot)
    ensures |RecordsVals(p.records)| == |p.records| && |RecordsVals(p.retired)| == |p.retired|
    ensures |DomainVals(p.domain)| == |DOMAIN|
  {
  }

  /** The stored checksum as the last value of the file. */
  lemma FileIsBodyAndStored(raw: Raw)
    ensures EncodeVals(FileVals(raw)) == EncodeVals(BodyVals(raw)) + LittleEndian(raw.stored, 4)
    ensures BodyVals(raw) == BodyVals(raw.(stored := 0))
  {
    hide BodyVals;
    EncodeConcat(BodyVals(raw), [V32(raw.stored)]);
    OneWordBytes(raw.stored);
    BodyIgnoresStored(raw);
  }

  lemma BodyIgnoresStored(raw: Raw)
    ensures BodyVals(raw) == BodyVals(raw.(stored := 0))
  {
  }

  lemma EncodeIsFile(p: PersistSnapshot)
    ensures Encode(p) == EncodeVals(FileVals(RawOf(p, WordValue(Crc32(Body(p))))))
  {
    hide BodyVals, FileVals, EncodeVals, WordValue, Crc32, WordBytes;
    var raw := RawOf(p, WordValue(Crc32(Body(p))));
    FileIsBodyAndStored(raw);
    StoredBytes(Crc32(Body(p)));
  }

  lemma EncodeParses(p: PersistSnapshot)
    requires Wellformed(RawOf(p, 0))
    ensures Parse(Encode(p)) == Some((RawOf(p, WordValue(Crc32(Body(p)))), []))
    ensures Checked(Encode(p), WordValue(Crc32(Body(p))))
  {
    hide EncodeVals, FileVals, Parse, Crc32, WordValue, Wellformed, BodyVals;
    var raw := RawOf(p, WordValue(Crc32(Body(p))));
    EncodeIsFile(p);
    WellformedIgnoresStored(p, raw.stored);
    ParseFile(raw, []);
    assert EncodeVals(FileVals(raw)) + [] == EncodeVals(FileVals(raw));
    BodyPart(Body(p), WordBytes(Crc32(Body(p))));
  }

  lemma WellformedIgnoresStored(p: PersistSnapshot, stored: u32)
    ensures Wellformed(RawOf(p, stored)) <==> Wellformed(RawOf(p, 0))
  {
  }

  lemma BodyPart(x: Bytes, t: Bytes)
    requires |t| == 4
    ensures |x + t| >= 4 && (x + t)[..|x + t| - 4] == x && (x + t)[|x + t| - 4..] == t
  {
  }

  /** Everything the decoder accepts is storable. */
  lemma AcceptedIsStorable(b: Bytes)
    requires Decode(b).Ok?
    ensures Storable(Decode(b).value)
  {
    var (raw, rest) := Parse(b).value;
    FileParse(b);
    hide Parse, Structural, Checked;
    RecordsFitTexts(raw.records);
    RecordsFitTexts(raw.retired);
  }

  lemma RecordsFitTexts(rs: seq<seq<Val>>)
    requires AllSized(rs) && RecordsFit(rs)
    ensures AllTextsFit(RecordsOf(rs))
  {
    forall i | 0 <= i < |rs| ensures TextsFit(RecordsOf(rs)[i]) {
      assert Fit(rs[i][14]) && Fit(rs[i][25]);
    }
  }

  /** Round trip: a snapshot comes back unchanged exactly when it is storable. */
  lemma RoundTrip(p: PersistSnapshot)
    ensures Decode(Encode(p)) == Ok(p) <==> Storable(p)
  {
    if Storable(p) {
      var stored := WordValue(Crc32(Body(p)));
      hide Encode, Parse, Structural, Checked, Wellformed, AllTextsFit, WordValue, Crc32, Body, RawOf, SnapshotOf;
      SnapshotOfRaw(p, 0);
      SnapshotOfRaw(p, stored);
      EncodeParses(p);
    }
    if Decode(Encode(p)) == Ok(p) {
      AcceptedIsStorable(Encode(p));
    }
  }

  /** A record that could describe a block of an arena of `capacity` bytes: a power-of-two
      alignment, an aligned place inside, at least the requested bytes, a generation, and
      codes and texts within their ranges. */
  ghost predicate Plausible(r: AllocationRecord, capacity: nat) {
    && PowerOfTwo(r.alignment) && Aligned(r.offset, r.alignment)
    && 0 < r.requestedBytes <= r.regionSize && r.offset + r.regionSize <= capacity
    && r.generation > 0
    && r.origin.memClass < 13 && r.reclaimability < 7 && r.movability < 3
    && r.residency < 11 && r.lifecycle < 19 && r.origin.provenance < 7
    && |r.origin.owner| <= 0x10_0000 && |r.origin.backingRef| <= 0x10_0000
  }

  lemma PlausibleMeaning(r: AllocationRecord, capacity: u64)
    ensures Plausible(r, capacity) <==> ValidRecord(r, capacity) && TextsFit(r)
  {
    PowerTest(r.alignment);
    assert IsPow2(r.alignment) ==> r.alignment > 0;
    hide IsPow2;
  }

  /** Exactly these snapshots survive being written and read: ordered watermarks within
      [0, 1], at most 2^20 plausible records in each list, no id twice, and live records
      that do not overlap. */
  lemma SurvivesIff(p: PersistSnapshot)
    ensures Decode(Encode(p)) == Ok(p) <==>
            && p.domain.watermarks.Valid()
            && |p.records| <= 0x10_0000 && |p.retired| <= 0x10_0000
            && (forall r | r in p.records + p.retired :: Plausible(r, p.domain.managedCapacity))
            && (forall i, j | 0 <= i < j < |p.records + p.retired| ::
                  (p.records + p.retired)[i].id != (p.records + p.retired)[j].id)
            && (forall i, j | 0 <= i < j < |p.records| ::
                  var x, y := p.records[i], p.records[j];
                  x.offset + x.regionSize <= y.offset || y.offset + y.regionSize <= x.offset)
  {
    RoundTrip(p);
    var cap := p.domain.managedCapacity;
    hide Decode, Encode, Plausible, ValidRecord, TextsFit;
    forall r ensures Plausible(r, cap) <==> ValidRecord(r, cap) && TextsFit(r) {
      PlausibleMeaning(r, cap);
    }
  }

  /** The file that carries given raw values with their true checksum. */
  function FileOf(raw: Raw): Bytes {
    var body := EncodeVals(BodyVals(raw));
    EncodeVals(FileVals(raw.(stored := WordValue(Crc32(body)))))
  }

  /** Raw values that are well formed and structurally sound make an accepted file,
      whatever snapshot wrote them. */
  lemma SoundRawIsAccepted(raw: Raw)
    requires Wellformed(raw) && |raw.domain| == |DOMAIN| && AllSized(raw.records) && AllSized(raw.retired)
    requires Structural(SnapshotOf(raw)) && SnapshotOf(raw).domain.watermarks.Valid()
    ensures Decode(FileOf(raw)) == Ok(SnapshotOf(raw))
    ensures var parsed := Parse(FileOf(raw)).value.0; parsed.records == raw.records && parsed.retired == raw.retired
  {
    var body := EncodeVals(BodyVals(raw));
    var whole := raw.(stored := WordValue(Crc32(body)));
    hide Structural, EncodeVals, FileVals, BodyVals, Parse, Crc32, WordValue, WordBytes, LittleEndian;
    ParseFile(whole, []);
    assert EncodeVals(FileVals(whole)) + [] == EncodeVals(FileVals(whole));
    FileIsBodyAndStored(whole);
    BodyIgnoresStored(raw);
    BodyPart(body, LittleEndian(whole.stored, 4));
  }

  // --------------------------------------------------------------- framing

  /** Accepted buffers are prefix-free: no extension of one is accepted. */
  lemma PrefixFree(b: Bytes, t: Bytes)
    requires Decode(b).Ok? && Decode(b + t).Ok?
    ensures t == []
  {
    var (raw, rest) := Parse(b).value;
    FileParse(b);
    hide Parse, Structural, Checked, FileVals, EncodeVals;
    ParseFile(raw, t);
    assert EncodeVals(FileVals(raw)) + [] == EncodeVals(FileVals(raw));
  }

  /** The stored checksum is the last four bytes of an accepted buffer, and matches the rest. */
  lemma AcceptedIsChecked(b: Bytes)
    requires Decode(b).Ok?
    ensures |b| >= 4 && b[|b| - 4..] == WordBytes(Crc32(b[..|b| - 4]))
  {
    var (raw, rest) := Parse(b).value;
    hide Parse, Structural, FileVals, EncodeVals, BodyVals, Crc32, WordValue, WordBytes, LittleEndian, SnapshotOf;
    FileParse(b);
    FileIsBodyAndStored(raw);
    BodyPart(EncodeVals(BodyVals(raw)), LittleEndian(raw.stored, 4));
    assert b == EncodeVals(FileVals(raw));
    StoredBytes(Crc32(b[..|b| - 4]));
  }

  lemma AcceptedResidue(b: Bytes)
    requires Decode(b).Ok?
    ensures |b| >= 4 && Feed(ONES, b) == Steps32(ONES)
  {
    AcceptedIsChecked(b);
    hide Decode, Feed, Steps32, WordBytes, Crc32;
    Residue(b[..|b| - 4], b[|b| - 4..]);
    SplitAt(b, |b| - 4);
  }

  /** Two buffers of one length that agree outside the four bytes at `p`. */
  predicate SameOutside(b: Bytes, c: Bytes, p: nat) {
    |b| == |c| && forall i | 0 <= i < |b| && !(p <= i < p + 4) :: b[i] == c[i]
  }

  /** Any change confined to four consecutive bytes is rejected, wherever it is. */
  lemma BurstRejected(b: Bytes, c: Bytes, p: nat)
    requires Decode(b).Ok? && SameOutside(b, c, p) && b != c
    ensures Decode(c).Err?
  {
    if Decode(c).Ok? {
      AcceptedResidue(b);
      AcceptedResidue(c);
      hide Decode, Feed, Steps32, SameOutside;
      var q := WindowPlace(b, c, p);
      WindowChangesState(b, c, q);
    }
  }

  lemma WindowPlace(b: Bytes, c: Bytes, p: nat) returns (q: nat)
    requires SameOutside(b, c, p) && |b| >= 4
    ensures q + 4 <= |b| == |c| && b[..q] == c[..q] && b[q + 4..] == c[q + 4..]
  {
    q := if p + 4 <= |b| then p else |b| - 4;
    assert b[..q] == c[..q];
    assert b[q + 4..] == c[q + 4..];
  }

  // -------------------------------------------------------------- geometry

  /** The unbounded sum of the sizes. */
  function TotalSize(v: seq<AllocationRecord>): nat {
    if v == [] then 0 else TotalSize(v[..|v| - 1]) + v[|v| - 1].regionSize
  }

  ghost function Covered(v: seq<AllocationRecord>): set<int> {
    if v == [] then {}
    else
      var r := v[|v| - 1];
      Covered(v[..|v| - 1]) + ArenaSpec.Interval(r.offset, r.offset + r.regionSize)
  }

  lemma {:induction false} CoveredMeaning(v: seq<AllocationRecord>, j: int)
    ensures j in Covered(v) <==> exists i :: 0 <= i < |v| && v[i].offset <= j < v[i].offset + v[i].regionSize
  {
    if v != [] {
      var w := v[..|v| - 1];
      CoveredMeaning(w, j);
      assert forall i | 0 <= i < |w| :: w[i] == v[i];
    }
  }

  lemma {:induction false} CoveredSize(v: seq<AllocationRecord>)
    requires PairwiseApart(v)
    ensures |Covered(v)| == TotalSize(v)
  {
    if v != [] {
      var w, r := v[..|v| - 1], v[|v| - 1];
      CoveredSize(w);
      var mine := ArenaSpec.Interval(r.offset, r.offset + r.regionSize);
      ArenaSpec.IntervalSize(r.offset, r.offset + r.regionSize);
      forall j | j in Covered(w) ensures j !in mine {
        CoveredMeaning(w, j);
        var i :| 0 <= i < |w| && w[i].offset <= j < w[i].offset + w[i].regionSize;
        assert RecordsApart(v[i], v[|v| - 1]);
      }
      assert Covered(w) !! mine;
    }
  }

  /** Disjoint records inside the capacity have sizes that sum within it. */
  lemma TotalWithinCapacity(v: seq<AllocationRecord>, managed: u64)
    requires AllValid(v, managed) && PairwiseApart(v)
    ensures TotalSize(v) <= managed
  {
    CoveredSize(v);
    ArenaSpec.IntervalSize(0, managed);
    forall j | j in Covered(v) ensures j in ArenaSpec.Interval(0, managed) {
      CoveredMeaning(v, j);
      var i :| 0 <= i < |v| && v[i].offset <= j < v[i].offset + v[i].regionSize;
      assert ValidRecord(v[i], managed);
    }
    ArenaSpec.SubsetSize(Covered(v), ArenaSpec.Interval(0, managed));
  }

  /** Every accepted snapshot is geometrically sound over the integers: records are
      non-empty, aligned, inside the capacity, pairwise disjoint, and their sizes
      sum within it although the decoder adds them modulo 2^64. */
  lemma AcceptedGeometry(b: Bytes)
    requires Decode(b).Ok?
    ensures var p := Decode(b).value; var cap := p.domain.managedCapacity;
            && (forall i | 0 <= i < |p.records| ::
                  var r := p.records[i];
                  && 0 < r.requestedBytes <= r.regionSize && r.offset + r.regionSize <= cap
                  && Aligned(r.offset, r.alignment))
            && PairwiseApart(p.records)
            && TotalSize(p.records) <= cap
  {
    var p := Decode(b).value;
    hide Parse, Checked, SnapshotOf;
    TotalWithinCapacity(p.records, p.domain.managedCapacity);
    forall i | 0 <= i < |p.records|
      ensures var r := p.records[i];
              0 < r.requestedBytes <= r.regionSize && r.offset + r.regionSize <= p.domain.managedCapacity
              && Aligned(r.offset, r.alignment)
    {
      assert ValidRecord(p.records[i], p.domain.managedCapacity);
    }
  }

  // ------------------------------------------------------- canonical files

  predicate FlagsCanonical(rs: seq<seq<Val>>) {
    forall i | 0 <= i < |rs| && |rs[i]| == |RECORD| :: Byte(rs[i][27]) <= 1
  }

  lemma ValsOfRecords(rs: seq<seq<Val>>)
    requires RecordsFit(rs) && AllSized(rs)
    ensures RecordsVals(RecordsOf(rs)) == rs <==> FlagsCanonical(rs)
  {
    var back := RecordsVals(RecordsOf(rs));
    hide RecordVals, RecordOf;
    forall i | 0 <= i < |rs| ensures back[i] == rs[i] <==> Byte(rs[i][27]) <= 1 {
      ValsOfRecord(rs[i]);
    }
    if back == rs {
      assert forall i | 0 <= i < |rs| :: back[i] == rs[i];
    }
  }

  /** Going from values to a snapshot and back loses only odd flag bytes. */
  lemma RawBack(raw: Raw)
    requires Wellformed(raw) && |raw.domain| == |DOMAIN| && AllSized(raw.records) && AllSized(raw.retired)
    ensures RawOf(SnapshotOf(raw), raw.stored) == raw <==> FlagsCanonical(raw.records) && FlagsCanonical(raw.retired)
  {
    ValsOfDomain(raw.domain);
    ValsOfRecords(raw.records);
    ValsOfRecords(raw.retired);
    hide RecordsVals, RecordsOf, DomainVals, DomainOf, FlagsCanonical;
  }

  /** Encoding an accepted buffer's snapshot gives the buffer back exactly when every
      "recoverable" flag byte in it is 0 or 1. */
  lemma CanonicalIffFlags(b: Bytes)
    requires Decode(b).Ok?
    ensures var raw := Parse(b).value.0;
            Encode(Decode(b).value) == b <==> FlagsCanonical(raw.records) && FlagsCanonical(raw.retired)
  {
    var (raw, rest) := Parse(b).value;
    var p := Decode(b).value;
    FileParse(b);
    AcceptedIsStorable(b);
    SnapshotOfRaw(p, 0);
    hide Parse, Structural, RawOf, SnapshotOf, FlagsCanonical, EncodeVals, FileVals, Crc32, WordValue, Body, Encode,
         Wellformed;
    EncodeParses(p);
    RawBack(raw);
    if RawOf(p, raw.stored) == raw {
      assert b == EncodeVals(FileVals(raw)) + [] == EncodeVals(FileVals(raw));
      FileOfRaw(p, raw, b);
    }
    if Encode(p) == b {
      StoredOfRaw(p, WordValue(Crc32(Body(p))), raw);
    }
  }

  lemma StoredOfRaw(p: PersistSnapshot, stored: u32, raw: Raw)
    requires RawOf(p, stored) == raw
    ensures RawOf(p, raw.stored) == raw
  {
  }

  lemma FileOfRaw(p: PersistSnapshot, raw: Raw, b: Bytes)
    requires raw == RawOf(p, raw.stored) && b == EncodeVals(FileVals(raw)) && Checked(b, raw.stored)
    ensures Encode(p) == b
  {
    FileIsBodyAndStored(raw);
    hide BodyVals, FileVals, EncodeVals, WordValue, Crc32, WordBytes, LittleEndian;
    BodyPart(EncodeVals(BodyVals(raw)), LittleEndian(raw.stored, 4));
    StoredBytes(Crc32(Body(p)));
    assert b[..|b| - 4] == Body(p);
  }
}
