/**
 * Geometry constants the base layer takes from its shared headers. Those
 * headers are not part of this model; the values are the ones the VDO
 * on-disk format fixes.
 */
module Constants {

  /** The most slabs a depot may have. */
  const MAX_SLABS: nat := 8192

  /** The most physical zones (block allocators) a VDO may have. */
  const MAX_PHYSICAL_ZONES: nat := 16

  /** The size of a VDO block in bytes. */
  const VDO_BLOCK_SIZE: nat := 4096

  /** The bytes a packed slab summary entry occupies. */
  const SUMMARY_ENTRY_SIZE: nat := 2

  /** The physical block that is always zero and never allocated. */
  const ZERO_BLOCK: nat := 0

  /** The number of entries in the whole slab summary buffer. */
  const SUMMARY_TOTAL_ENTRIES: nat := 131072

  /** The sectors of a recovery journal block; sector 0 holds the block header. */
  const SECTORS_PER_BLOCK: nat := 8

  /** The recovery journal entries a full sector holds. */
  const RECOVERY_JOURNAL_ENTRIES_PER_SECTOR: nat := 46

  /** The recovery journal entries of a block, every entry sector together. */
  const RECOVERY_JOURNAL_ENTRIES_PER_BLOCK: nat := 311

  /** The entries the last sector of a block holds: what the full sectors leave over. */
  const RECOVERY_JOURNAL_ENTRIES_PER_LAST_SECTOR: nat :=
    RECOVERY_JOURNAL_ENTRIES_PER_BLOCK % RECOVERY_JOURNAL_ENTRIES_PER_SECTOR
}
