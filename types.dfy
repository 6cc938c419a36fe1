/**
 * Fixed-width integers, status codes, constants and the two shapes of a
 * data block of the flash file system: the header as it lies on flash
 * (DiskBlock, struct ffs_disk_block) and the metadata-only handle kept in RAM
 * (Block, struct ffs_block).
 */
module FfsTypes {

  type uint8 = x: int | 0 <= x < 0x100
  type uint32 = x: int | 0 <= x < 0x1_0000_0000

  datatype Option<+T> = None | Some(value: T)

  /** The FFS_E* codes this layer returns or passes through. */
  datatype Error =
    | ECorrupt     // a required inode or predecessor is missing from the index
    | EUnexp       // the record at a location is not a data block (magic mismatch)
    | EFull        // no space left for a reservation
    | EFlashError  // the flash device reported a failure

  datatype Result<+T> = Success(value: T) | Failure(error: Error)

  /** Status of an operation that returns no value (0 or an error code). */
  datatype Outcome = Pass | Fail(error: Error)

  /** Magic number that opens every data-block header (FFS_BLOCK_MAGIC). */
  const BLOCK_MAGIC: uint32 := 0x53ba23b9

  /** The "no object" id (FFS_ID_NONE); the first block of a file has it as prev id. */
  const ID_NONE: uint32 := 0xffffffff

  /** Block ids occupy [ID_BLOCK_MIN, ID_BLOCK_MAX); inodes use the ids below. */
  const ID_BLOCK_MIN: uint32 := 0x80000000
  const ID_BLOCK_MAX: uint32 := 0xffffffff

  /** ffs_hash_id_is_block */
  predicate IsBlockId(id: uint32) {
    ID_BLOCK_MIN <= id < ID_BLOCK_MAX
  }

  /** sizeof (struct ffs_disk_block): six 32-bit fields. */
  const HEADER_SIZE: nat := 24

  /** A flash location: an area index and a byte offset inside that area. */
  datatype FlashLoc = FlashLoc(area: uint8, offset: uint32)

  /** The fixed-size header written in front of a block's payload. */
  datatype DiskBlock = DiskBlock(
    magic: uint32,
    id: uint32,
    seqNo: uint32,
    inodeId: uint32,
    prevId: uint32,
    dataLen: uint32)

  /**
   * The RAM projection of a block. The owning inode and the predecessor are
   * non-owning references, written as the ids of their index entries; None
   * stands for a null pointer.
   */
  datatype Block = Block(
    id: uint32,
    seqNo: uint32,
    loc: FlashLoc,
    inode: Option<uint32>,
    prev: Option<uint32>,
    dataLen: uint32)
}
