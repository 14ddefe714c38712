/** What several parts share. */
module Common {
  datatype Option<T> = None | Some(value: T)

  /** The block of the superblock; none before it can be used. */
  const CMFS_SUPER_BLOCK_BLKNO := 2
}
