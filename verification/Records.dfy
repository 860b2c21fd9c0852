/** Allocation requests, the authoritative records, the governed domain, and the
    durable snapshot that bundles them. */
module Records {
  import opened Machine
  import opened Types
  import opened Pressure

  /** What a request says about its owner and purpose; carried along unchanged. */
  datatype Origin = Origin(
    memClass: u8,
    owner: Bytes,
    worker: u64,
    workerBoot: u64,
    sourceBoot: u64,
    workload: u64,
    execution: u64,
    reservationGen: u64,
    resourceClaimGen: u64,
    placementGen: u64,
    policyGen: u64,
    backingRef: Bytes,
    provenance: u8)

  datatype AllocationRequest = AllocationRequest(
    bytes: u64,
    minBytes: u64,
    alignment: u64,
    reclaimability: u8,
    movability: u8,
    requiresPin: bool,
    origin: Origin)

  datatype AllocationRecord = AllocationRecord(
    id: u64,
    generation: u64,
    requestedBytes: u64,
    regionSize: u64,
    offset: u64,
    alignment: u64,
    regionId: u64,
    regionGeneration: u64,
    reclaimability: u8,
    movability: u8,
    pinCount: u32,
    residency: u8,
    lifecycle: u8,
    relocationGeneration: u64,
    origin: Origin,
    recoverable: bool)

  datatype DomainIdentity = DomainIdentity(
    domainId: u64,
    domainGeneration: u64,
    deviceId: u64,
    deviceGeneration: u64,
    totalCapacity: u64,
    allocatorVisibleCapacity: u64,
    reservedHeadroom: u64)

  datatype MemoryDomain = MemoryDomain(
    identity: DomainIdentity,
    managedCapacity: u64,
    currentCommitted: u64,
    currentPhysicallyAllocated: u64,
    currentResident: u64,
    currentReclaimable: u64,
    currentMovable: u64,
    currentPinned: u64,
    externalFragmentation: u64,
    pressure: u8,
    health: u8,
    provenance: u8,
    watermarks: Watermarks)

  datatype PersistSnapshot = PersistSnapshot(
    domain: MemoryDomain,
    records: seq<AllocationRecord>,
    retired: seq<AllocationRecord>,
    nextAllocId: u64,
    historyCount: u64)

  /** Request validation; the reason of the first rule that is broken. */
  function ValidateRequest(req: AllocationRequest, governedCapacity: u64): Result<()> {
    if req.bytes == 0 then Err(ZERO_BYTES)
    else if req.bytes > governedCapacity then Err(REQUEST_EXCEEDS_CAPACITY)
    else if req.alignment == 0 then Err(IMPOSSIBLE_ALIGNMENT)
    else if !IsPow2(req.alignment) then Err(NON_POWER_OF_TWO_ALIGNMENT)
    else if req.minBytes > req.bytes then Err(MALFORMED_LIFETIME)
    else if req.requiresPin && req.movability == MOVABLE && req.reclaimability == NEVER_RECLAIM then
      Err(CONTRADICTORY_MOVABILITY)
    else Ok(())
  }
}
