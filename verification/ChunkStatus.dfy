/** The life cycle status of a managed chunk. */
module ChunkStatus {

  datatype MemoryStatus = Allocated | InUseRead | InUseWrite | Swapped | SwapIn | SwapOut {
    /** status & MEM_ALLOCATED */
    predicate Resident() { Allocated? || InUseRead? || InUseWrite? }

    /** status & MEM_ALLOCATED_INUSE */
    predicate InUse() { InUseRead? || InUseWrite? }

    /** Swapped out, or on the way there. */
    predicate Out() { Swapped? || SwapOut? }
  }
}
