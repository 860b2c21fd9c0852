/** The snapshot file format: which values make up a snapshot, in which order,
    and what a buffer of bytes therefore says. */
module SnapshotFormat {
  import opened Machine
  import opened Types
  import opened Records
  import opened Pressure
  import opened Wire

  const MAGIC: u32 := 0x47534d53
  const VERSION: u32 := 1
  const MAX_RECORDS: nat := 0x10_0000

  /* A record and a domain are written in groups of consecutive fields. */

  const IDENTITY: seq<Kind> := [K64, K64, K64, K64]
  const PLACE: seq<Kind> := [K64, K64, K64, K64]
  const CLASSES: seq<Kind> := [K8, K8, K8, K32]
  const STATE: seq<Kind> := [K8, K8, KStr]
  const PARTIES: seq<Kind> := [K64, K64, K64, K64, K64]
  const GENERATIONS: seq<Kind> := [K64, K64, K64, K64, K64]
  const BACKING: seq<Kind> := [KStr, K8, K8]

  const RECORD: seq<Kind> := IDENTITY + PLACE + CLASSES + STATE + PARTIES + GENERATIONS + BACKING

  const DEVICE: seq<Kind> := [K64, K64, K64, K64]
  const CAPACITIES: seq<Kind> := [K64, K64, K64, K64]
  const COMMITMENTS: seq<Kind> := [K64, K64, K64, K64]
  const COUNTERS: seq<Kind> := [K64, K64, K64]
  const CONDITION: seq<Kind> := [K8, K8, K8]
  const LEVELS: seq<Kind> := [K64, K64, K64, K64]

  const DOMAIN: seq<Kind> := DEVICE + CAPACITIES + COMMITMENTS + COUNTERS + CONDITION + LEVELS

  function Flag(b: bool): u8 {
    if b then 1 else 0
  }

  function IdentityVals(r: AllocationRecord): seq<Val> {
    [V64(r.id), V64(r.generation), V64(r.requestedBytes), V64(r.regionSize)]
  }

  function PlaceVals(r: AllocationRecord): seq<Val> {
    [V64(r.offset), V64(r.alignment), V64(r.regionId), V64(r.regionGeneration)]
  }

  function ClassVals(r: AllocationRecord): seq<Val> {
    [V8(r.origin.memClass), V8(r.reclaimability), V8(r.movability), V32(r.pinCount)]
  }

  function StateVals(r: AllocationRecord): seq<Val> {
    [V8(r.residency), V8(r.lifecycle), VStr(r.origin.owner)]
  }

  function PartyVals(r: AllocationRecord): seq<Val> {
    [V64(r.origin.worker), V64(r.origin.workerBoot), V64(r.origin.sourceBoot), V64(r.origin.workload),
     V64(r.origin.execution)]
  }

  function GenerationVals(r: AllocationRecord): seq<Val> {
    [V64(r.relocationGeneration), V64(r.origin.reservationGen), V64(r.origin.resourceClaimGen),
     V64(r.origin.placementGen), V64(r.origin.policyGen)]
  }

  function BackingVals(r: AllocationRecord): seq<Val> {
    [VStr(r.origin.backingRef), V8(r.origin.provenance), V8(Flag(r.recoverable))]
  }

  function RecordVals(r: AllocationRecord): seq<Val> {
    IdentityVals(r) + PlaceVals(r) + ClassVals(r) + StateVals(r) + PartyVals(r) + GenerationVals(r) + BackingVals(r)
  }

  function Byte(v: Val): u8 {
    if v.V8? then v.b else 0
  }

  function Word(v: Val): u32 {
    if v.V32? then v.w else 0
  }

  function Quad(v: Val): u64 {
    if v.V64? then v.q else 0
  }

  function Text(v: Val): Bytes {
    if v.VStr? then v.s else []
  }

  /** Any flag byte other than 1 reads as "not recoverable". */
  function RecordOf(v: seq<Val>): AllocationRecord
    requires |v| == |RECORD|
  {
    AllocationRecord(
      Quad(v[0]), Quad(v[1]), Quad(v[2]), Quad(v[3]), Quad(v[4]), Quad(v[5]), Quad(v[6]), Quad(v[7]),
      Byte(v[9]), Byte(v[10]), Word(v[11]), Byte(v[12]), Byte(v[13]), Quad(v[20]),
      Origin(Byte(v[8]), Text(v[14]), Quad(v[15]), Quad(v[16]), Quad(v[17]), Quad(v[18]), Quad(v[19]),
             Quad(v[21]), Quad(v[22]), Quad(v[23]), Quad(v[24]), Text(v[25]), Byte(v[26])),
      Byte(v[27]) == 1)
  }

  function DeviceVals(d: MemoryDomain): seq<Val> {
    [V64(d.identity.domainId), V64(d.identity.domainGeneration), V64(d.identity.deviceId),
     V64(d.identity.deviceGeneration)]
  }

  function CapacityVals(d: MemoryDomain): seq<Val> {
    [V64(d.identity.totalCapacity), V64(d.identity.allocatorVisibleCapacity), V64(d.identity.reservedHeadroom),
     V64(d.managedCapacity)]
  }

  function CommitmentVals(d: MemoryDomain): seq<Val> {
    [V64(d.currentCommitted), V64(d.currentPhysicallyAllocated), V64(d.currentResident), V64(d.currentReclaimable)]
  }

  function CounterVals(d: MemoryDomain): seq<Val> {
    [V64(d.currentMovable), V64(d.currentPinned), V64(d.externalFragmentation)]
  }

  function ConditionVals(d: MemoryDomain): seq<Val> {
    [V8(d.pressure), V8(d.health), V8(d.provenance)]
  }

  function LevelVals(d: MemoryDomain): seq<Val> {
    [V64(d.watermarks.generation), V64(d.watermarks.low), V64(d.watermarks.high), V64(d.watermarks.critical)]
  }

  function DomainVals(d: MemoryDomain): seq<Val> {
    DeviceVals(d) + CapacityVals(d) + CommitmentVals(d) + CounterVals(d) + ConditionVals(d) + LevelVals(d)
  }

  function DomainOf(v: seq<Val>): MemoryDomain
    requires |v| == |DOMAIN|
  {
    MemoryDomain(
      DomainIdentity(Quad(v[0]), Quad(v[1]), Quad(v[2]), Quad(v[3]), Quad(v[4]), Quad(v[5]), Quad(v[6])),
      Quad(v[7]), Quad(v[8]), Quad(v[9]), Quad(v[10]), Quad(v[11]), Quad(v[12]), Quad(v[13]), Quad(v[14]),
      Byte(v[15]), Byte(v[16]), Byte(v[17]),
      Watermarks(Quad(v[19]), Quad(v[20]), Quad(v[21]), Quad(v[18])))
  }

  lemma ShapedConcat(v: seq<Val>, ks: seq<Kind>, w: seq<Val>, ls: seq<Kind>)
    requires Shaped(v, ks) && Shaped(w, ls)
    ensures Shaped(v + w, ks + ls)
  {
  }

  lemma RecordShape(r: AllocationRecord)
    ensures Shaped(RecordVals(r), RECORD)
  {
    hide Shaped;
    var a, b, c, d := IdentityVals(r), PlaceVals(r), ClassVals(r), StateVals(r);
    var e, f, g := PartyVals(r), GenerationVals(r), BackingVals(r);
    GroupShapes(r);
    hide IdentityVals, PlaceVals, ClassVals, StateVals, PartyVals, GenerationVals, BackingVals;
    ShapedConcat(a, IDENTITY, b, PLACE);
    ShapedConcat(a + b, IDENTITY + PLACE, c, CLASSES);
    ShapedConcat(a + b + c, IDENTITY + PLACE + CLASSES, d, STATE);
    ShapedConcat(a + b + c + d, IDENTITY + PLACE + CLASSES + STATE, e, PARTIES);
    ShapedConcat(a + b + c + d + e, IDENTITY + PLACE + CLASSES + STATE + PARTIES, f, GENERATIONS);
    ShapedConcat(a + b + c + d + e + f, IDENTITY + PLACE + CLASSES + STATE + PARTIES + GENERATIONS, g, BACKING);
  }

  lemma GroupShapes(r: AllocationRecord)
    ensures Shaped(IdentityVals(r), IDENTITY) && Shaped(PlaceVals(r), PLACE) && Shaped(ClassVals(r), CLASSES)
    ensures Shaped(StateVals(r), STATE) && Shaped(PartyVals(r), PARTIES)
    ensures Shaped(GenerationVals(r), GENERATIONS) && Shaped(BackingVals(r), BACKING)
  {
  }

  lemma RecordOfVals(r: AllocationRecord)
    ensures Shaped(RecordVals(r), RECORD) && RecordOf(RecordVals(r)) == r
  {
    RecordShape(r);
    hide Shaped;
  }

  lemma ValsOfRecord(v: seq<Val>)
    requires Shaped(v, RECORD)
    ensures RecordVals(RecordOf(v)) == v <==> Byte(v[27]) <= 1
  {
    GroupsBack(v);
    ShapedSize(v, RECORD);
    var w := RecordVals(RecordOf(v));
    hide Shaped, RecordOf, IdentityVals, PlaceVals, ClassVals, StateVals, PartyVals, GenerationVals, BackingVals;
    Joined(v, V8(Flag(Byte(v[27]) == 1)));
    assert w[27] == V8(Flag(Byte(v[27]) == 1));
  }

  lemma Joined(v: seq<Val>, z: Val)
    requires |v| == 28
    ensures v[..4] + v[4..8] + v[8..12] + v[12..15] + v[15..20] + v[20..25] + (v[25..27] + [z]) == v[27 := z]
  {
    assert v[..4] + v[4..8] == v[..8];
    assert v[..8] + v[8..12] == v[..12];
    assert v[..12] + v[12..15] == v[..15];
    assert v[..15] + v[15..20] == v[..20];
    assert v[..20] + v[20..25] == v[..25];
    assert v[..25] + (v[25..27] + [z]) == v[27 := z];
  }

  lemma ShapedSize(v: seq<Val>, ks: seq<Kind>)
    requires Shaped(v, ks)
    ensures |v| == |ks|
  {
  }

  /** All fields but the last come back as they were. */
  lemma GroupsBack(v: seq<Val>)
    requires Shaped(v, RECORD)
    ensures var r := RecordOf(v);
            && |v| == 28 && IdentityVals(r) == v[..4] && PlaceVals(r) == v[4..8] && ClassVals(r) == v[8..12]
            && StateVals(r) == v[12..15] && PartyVals(r) == v[15..20] && GenerationVals(r) == v[20..25]
            && BackingVals(r) == v[25..27] + [V8(Flag(Byte(v[27]) == 1))] && v[27] == V8(Byte(v[27]))
  {
    assert KindOf(v[27]) == K8;
  }

  lemma DomainOfVals(d: MemoryDomain)
    ensures Shaped(DomainVals(d), DOMAIN) && DomainOf(DomainVals(d)) == d
  {
  }

  lemma ValsOfDomain(v: seq<Val>)
    requires Shaped(v, DOMAIN)
    ensures DomainVals(DomainOf(v)) == v
  {
  }

  // ------------------------------------------------------------- the file

  /** A file as values: what the bytes say before anything is validated. */
  datatype Raw = Raw(
    domain: seq<Val>,
    records: seq<seq<Val>>,
    retired: seq<seq<Val>>,
    nextAllocId: u64,
    historyCount: u64,
    stored: u32)

  predicate AllSized(rs: seq<seq<Val>>) {
    forall i | 0 <= i < |rs| :: |rs[i]| == |RECORD|
  }

  function Flat(rs: seq<seq<Val>>): seq<Val> {
    if rs == [] then [] else rs[0] + Flat(rs[1..])
  }

  function RecordsOf(rs: seq<seq<Val>>): seq<AllocationRecord>
    requires AllSized(rs)
  {
    seq(|rs|, i requires 0 <= i < |rs| => RecordOf(rs[i]))
  }

  function RecordsVals(v: seq<AllocationRecord>): seq<seq<Val>> {
    seq(|v|, i requires 0 <= i < |v| => RecordVals(v[i]))
  }

  function HeadVals(domain: seq<Val>): seq<Val> {
    [V32(MAGIC), V32(VERSION)] + domain
  }

  /** A count and the records; the count is written as a 32-bit word. */
  function ListVals(rs: seq<seq<Val>>): seq<Val> {
    [V32(|rs| % TWO32)] + Flat(rs)
  }

  /** Everything that is checksummed. */
  function BodyVals(raw: Raw): seq<Val> {
    HeadVals(raw.domain) + ListVals(raw.records) + ListVals(raw.retired) + [V64(raw.nextAllocId), V64(raw.historyCount)]
  }

  function FileVals(raw: Raw): seq<Val> {
    BodyVals(raw) + [V32(raw.stored)]
  }

  function ParseRecord(s: Bytes): Option<(AllocationRecord, Bytes)> {
    var (v, rest) :- DecodeVals(RECORD, s);
    Some((RecordOf(v), rest))
  }

  function ParseRecords(n: nat, s: Bytes): (r: Option<(seq<seq<Val>>, Bytes)>)
    ensures r.Some? ==> |r.value.0| == n && AllSized(r.value.0)
    decreases n
  {
    if n == 0 then Some(([], s))
    else
      var (v, rest) :- DecodeVals(RECORD, s);
      var (vs, end) :- ParseRecords(n - 1, rest);
      Some(([v] + vs, end))
  }

  /** A count and that many records. */
  function ParseList(s: Bytes): (r: Option<(seq<seq<Val>>, Bytes)>)
    ensures r.Some? ==> |r.value.0| <= MAX_RECORDS && AllSized(r.value.0)
  {
    var (n, rest) :- DecodeVals([K32], s);
    if Word(n[0]) > MAX_RECORDS then None else ParseRecords(Word(n[0]), rest)
  }

  function ParseDomain(s: Bytes): (r: Option<(seq<Val>, Bytes)>)
    ensures r.Some? ==> |r.value.0| == |DOMAIN|
  {
    var (h, s1) :- DecodeVals([K32, K32], s);
    if Word(h[0]) != MAGIC || Word(h[1]) != VERSION then None else DecodeVals(DOMAIN, s1)
  }

  /** Read a whole file; the second component is what follows it. */
  function Parse(s: Bytes): (r: Option<(Raw, Bytes)>)
    ensures r.Some? ==> var raw := r.value.0; |raw.domain| == |DOMAIN| && AllSized(raw.records) && AllSized(raw.retired)
  {
    var (domain, s1) :- ParseDomain(s);
    var (records, s2) :- ParseList(s1);
    var (retired, s3) :- ParseList(s2);
    var (tail, rest) :- DecodeVals([K64, K64, K32], s3);
    Some((Raw(domain, records, retired, Quad(tail[0]), Quad(tail[1]), Word(tail[2])), rest))
  }

  // ------------------------------------------------- the format inverts

  predicate RecordsFit(rs: seq<seq<Val>>) {
    forall i | 0 <= i < |rs| :: Shaped(rs[i], RECORD) && AllFit(rs[i])
  }

  predicate ListFits(rs: seq<seq<Val>>) {
    |rs| <= MAX_RECORDS && RecordsFit(rs)
  }

  /** Raw values the reader accepts: right shapes, short strings, bounded counts. */
  predicate Wellformed(raw: Raw) {
    Shaped(raw.domain, DOMAIN) && ListFits(raw.records) && ListFits(raw.retired)
  }

  lemma FlatNested(rs: seq<seq<Val>>, t: Bytes)
    requires rs != []
    ensures EncodeVals(Flat(rs)) + t == EncodeVals(rs[0]) + (EncodeVals(Flat(rs[1..])) + t)
  {
    hide EncodeVals;
    EncodeConcat(rs[0], Flat(rs[1..]));
    Assoc(EncodeVals(rs[0]), EncodeVals(Flat(rs[1..])), t);
  }

  lemma {:induction false} ParseFlat(rs: seq<seq<Val>>, t: Bytes)
    requires RecordsFit(rs)
    ensures ParseRecords(|rs|, EncodeVals(Flat(rs)) + t) == Some((rs, t))
    decreases |rs|
  {
    hide DecodeVals, EncodeVals;
    if rs == [] {
      NoVals(t);
    } else {
      FlatNested(rs, t);
      DecodeEncode(rs[0], RECORD, EncodeVals(Flat(rs[1..])) + t);
      ParseFlat(rs[1..], t);
      assert rs == [rs[0]] + rs[1..];
    }
  }

  lemma NoVals(t: Bytes)
    ensures EncodeVals([]) + t == t
  {
  }

  lemma {:induction false} FlatParse(n: nat, s: Bytes)
    requires ParseRecords(n, s).Some?
    ensures var (rs, rest) := ParseRecords(n, s).value; RecordsFit(rs) && s == EncodeVals(Flat(rs)) + rest
    decreases n
  {
    hide DecodeVals;
    if n > 0 {
      var (v, mid) := DecodeVals(RECORD, s).value;
      var (rs, rest) := ParseRecords(n, s).value;
      EncodeDecode(RECORD, s);
      FlatParse(n - 1, mid);
      assert rs[1..] == ParseRecords(n - 1, mid).value.0;
      FlatNested(rs, rest);
    }
  }

  lemma ListNested(rs: seq<seq<Val>>, t: Bytes)
    ensures EncodeVals(ListVals(rs)) + t == EncodeVals([V32(|rs| % TWO32)]) + (EncodeVals(Flat(rs)) + t)
  {
    hide EncodeVals, Flat;
    EncodeConcat([V32(|rs| % TWO32)], Flat(rs));
    Assoc(EncodeVals([V32(|rs| % TWO32)]), EncodeVals(Flat(rs)), t);
  }

  lemma ReadCount(n: u32, t: Bytes)
    ensures DecodeVals([K32], EncodeVals([V32(n)]) + t) == Some(([V32(n)], t))
  {
    hide EncodeVals, DecodeVals;
    DecodeEncode([V32(n)], [K32], t);
  }

  lemma ParseListVals(rs: seq<seq<Val>>, t: Bytes)
    requires ListFits(rs)
    ensures ParseList(EncodeVals(ListVals(rs)) + t) == Some((rs, t))
  {
    hide EncodeVals, DecodeVals, ParseRecords, Flat, RecordsFit, ListVals;
    ListNested(rs, t);
    ReadCount(|rs|, EncodeVals(Flat(rs)) + t);
    ParseFlat(rs, t);
  }

  lemma OneWord(n: seq<Val>)
    requires Shaped(n, [K32])
    ensures n == [V32(Word(n[0]))]
  {
  }

  lemma ListValsParse(s: Bytes)
    requires ParseList(s).Some?
    ensures var (rs, rest) := ParseList(s).value; ListFits(rs) && s == EncodeVals(ListVals(rs)) + rest
  {
    hide EncodeVals, DecodeVals, ParseRecords, Flat, RecordsFit, AllFit, ListVals;
    var (n, mid) := DecodeVals([K32], s).value;
    var (rs, rest) := ParseList(s).value;
    EncodeDecode([K32], s);
    OneWord(n);
    FlatParse(Word(n[0]), mid);
    ListNested(rs, rest);
  }

  lemma ParseHead(d: seq<Val>, t: Bytes)
    requires Shaped(d, DOMAIN)
    ensures ParseDomain(EncodeVals(HeadVals(d)) + t) == Some((d, t))
  {
    var h := [V32(MAGIC), V32(VERSION)];
    EncodeConcat(h, d);
    Assoc(EncodeVals(h), EncodeVals(d), t);
    DecodeEncode(h, [K32, K32], EncodeVals(d) + t);
    DomainFits(d);
    DecodeEncode(d, DOMAIN, t);
  }

  lemma DomainFits(d: seq<Val>)
    requires Shaped(d, DOMAIN)
    ensures AllFit(d)
  {
    forall i | 0 <= i < |d| ensures Fit(d[i]) {
      assert KindOf(d[i]) == DOMAIN[i] && DOMAIN[i] != KStr;
    }
  }

  lemma HeadParse(s: Bytes)
    requires ParseDomain(s).Some?
    ensures var (d, rest) := ParseDomain(s).value; Shaped(d, DOMAIN) && s == EncodeVals(HeadVals(d)) + rest
  {
    var (h, s1) := DecodeVals([K32, K32], s).value;
    var (d, rest) := ParseDomain(s).value;
    EncodeDecode([K32, K32], s);
    EncodeDecode(DOMAIN, s1);
    assert h == [V32(MAGIC), V32(VERSION)];
    EncodeConcat(h, d);
    Assoc(EncodeVals(h), EncodeVals(d), rest);
  }

  /** The file with its parts nested to the right, as they are read. */
  lemma FileNested(raw: Raw, t: Bytes)
    ensures EncodeVals(FileVals(raw)) + t ==
            EncodeVals(HeadVals(raw.domain)) + (EncodeVals(ListVals(raw.records)) + (EncodeVals(ListVals(raw.retired))
            + (EncodeVals([V64(raw.nextAllocId), V64(raw.historyCount), V32(raw.stored)]) + t)))
  {
    var h, l, m := HeadVals(raw.domain), ListVals(raw.records), ListVals(raw.retired);
    var e := [V64(raw.nextAllocId), V64(raw.historyCount), V32(raw.stored)];
    assert FileVals(raw) == h + (l + (m + e));
    hide *;
    EncodeConcat(h, l + (m + e));
    EncodeConcat(l, m + e);
    EncodeConcat(m, e);
    Assoc(EncodeVals(h), EncodeVals(l + (m + e)), t);
    Assoc(EncodeVals(l), EncodeVals(m + e), t);
    Assoc(EncodeVals(m), EncodeVals(e), t);
  }

  /** Reading what was written gives it back, whatever follows. */
  lemma ParseFile(raw: Raw, t: Bytes)
    requires Wellformed(raw)
    ensures Parse(EncodeVals(FileVals(raw)) + t) == Some((raw, t))
  {
    var e := [V64(raw.nextAllocId), V64(raw.historyCount), V32(raw.stored)];
    FileNested(raw, t);
    DecodeEncode(e, [K64, K64, K32], t);
    hide FileVals, HeadVals, ListVals, EncodeVals, ParseDomain, ParseList, DecodeVals;
    ParseListVals(raw.retired, EncodeVals(e) + t);
    ParseListVals(raw.records, EncodeVals(ListVals(raw.retired)) + (EncodeVals(e) + t));
    ParseHead(raw.domain,
              EncodeVals(ListVals(raw.records)) + (EncodeVals(ListVals(raw.retired)) + (EncodeVals(e) + t)));
  }

  /** What was read is exactly the encoding of the values it gave. */
  lemma FileParse(s: Bytes)
    requires Parse(s).Some?
    ensures var (raw, rest) := Parse(s).value; Wellformed(raw) && s == EncodeVals(FileVals(raw)) + rest
  {
    var (raw, rest) := Parse(s).value;
    var (domain, s1) := ParseDomain(s).value;
    var (records, s2) := ParseList(s1).value;
    var (retired, s3) := ParseList(s2).value;
    HeadParse(s);
    ListValsParse(s1);
    ListValsParse(s2);
    EncodeDecode([K64, K64, K32], s3);
    var tail := DecodeVals([K64, K64, K32], s3).value.0;
    assert tail == [V64(raw.nextAllocId), V64(raw.historyCount), V32(raw.stored)];
    FileNested(raw, rest);
  }
}
