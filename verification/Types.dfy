/** Values shared by the allocator, the governor and the persistence codec. */
module Types {
  import opened Machine

  datatype RejectReason =
    | INVALID_REQUEST
    | ZERO_BYTES
    | SIZE_OVERFLOW
    | IMPOSSIBLE_ALIGNMENT
    | NON_POWER_OF_TWO_ALIGNMENT
    | REQUEST_EXCEEDS_CAPACITY
    | MALFORMED_LIFETIME
    | CONTRADICTORY_MOVABILITY
    | INSUFFICIENT_TOTAL_CAPACITY
    | INSUFFICIENT_CONTIGUOUS_CAPACITY
    | BLOCKED_BY_PINNED
    | PHYSICAL_OOM
    | STALE_AUTHORITY
    | STALE_GENERATION
    | DOUBLE_FREE
    | FREE_OF_ACTIVE_OR_PINNED
    | INTERNAL_ERROR

  datatype Result<+T> = Ok(value: T) | Err(reason: RejectReason)

  /* The byte-backed enumerations.  They are kept as their codes because the
     decoder casts raw bytes to them before it checks their range. */

  const MOVABLE: u8 := 0
  const PINNED: u8 := 1
  const NONMOVABLE: u8 := 2

  const CLASS_UNKNOWN: u8 := 0
  const CLASS_INTERNAL: u8 := 12

  const RECLAIM_UNKNOWN: u8 := 0
  const NEVER_RECLAIM: u8 := 1
  const RECLAIM_AFTER_COMPLETION: u8 := 2
  const RECLAIM_IF_COLD: u8 := 3
  const RECLAIM_IF_RELOADABLE: u8 := 4
  const RECLAIM_IF_CHECKPOINTED: u8 := 5
  const BEST_EFFORT: u8 := 6

  const NONRESIDENT: u8 := 1
  const RESIDENT: u8 := 3
  const ACTIVE: u8 := 4
  const RESIDENCY_REVALIDATION_REQUIRED: u8 := 10

  const LIFECYCLE_REQUESTED: u8 := 0
  const LIFECYCLE_ALLOCATED: u8 := 4
  const LIFECYCLE_RESIDENT: u8 := 5
  const LIFECYCLE_PINNED: u8 := 6
  const LIFECYCLE_RELEASED: u8 := 13
  const LIFECYCLE_REVALIDATION_REQUIRED: u8 := 16
  const LIFECYCLE_RETIRED: u8 := 18

  const PROVENANCE_UNKNOWN: u8 := 0
  const DERIVED: u8 := 3
  const RECONSTRUCTED: u8 := 6

  const PRESSURE_UNKNOWN: u8 := 0
  const LOW: u8 := 1
  const NORMAL: u8 := 2
  const HIGH: u8 := 4
  const CRITICAL: u8 := 5
  const RECLAIMING: u8 := 6
  const PRESSURE_REVALIDATION_REQUIRED: u8 := 9

  const HEALTH_UNKNOWN: u8 := 0
  const HEALTHY: u8 := 1

  type Bytes = seq<u8>

  /** The next generation; 0 ("none") once the counter is exhausted. */
  function NextGeneration(g: u64): u64 {
    if g == MAX64 then 0 else g + 1
  }

  /** The descriptive part of a region, which never affects the layout. */
  datatype RegionTag = RegionTag(
    regionId: u64,
    regionGeneration: u64,
    memClass: u8,
    reclaimability: u8,
    residency: u8,
    lifecycle: u8,
    provenance: u8,
    workerBoot: u64)

  datatype Region = Region(
    offset: u64,
    size: u64,
    alignment: u64,
    live: bool,
    allocId: u64,
    allocGeneration: u64,
    movability: u8,
    pinCount: u32,
    tag: RegionTag)

  /** A free region as the allocator builds it. */
  function FreeRegion(offset: u64, size: u64, regionId: u64, provenance: u8): Region {
    Region(offset, size, 1, false, 0, 0, MOVABLE, 0,
           RegionTag(regionId, 1, CLASS_UNKNOWN, RECLAIM_UNKNOWN, 0, LIFECYCLE_REQUESTED, provenance, 0))
  }

  datatype AllocRequest = AllocRequest(
    bytes: u64,
    alignment: u64,
    movability: u8,
    memClass: u8,
    reclaimability: u8,
    allocId: u64,
    allocGeneration: u64,
    workerBoot: u64,
    provenance: u8)

  /** The live region an allocation request turns into. */
  function LiveRegion(req: AllocRequest, offset: u64, size: u64, regionId: u64): Region {
    Region(offset, size, req.alignment, true, req.allocId, req.allocGeneration, req.movability, 0,
           RegionTag(regionId, 1, req.memClass, req.reclaimability, RESIDENT, LIFECYCLE_ALLOCATED, req.provenance,
                     req.workerBoot))
  }
}
