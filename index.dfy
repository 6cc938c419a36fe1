/**
 * The object index (the id-keyed hash table): a map from object id to an
 * inode entry or a block entry. Lookups, removal and insertion are map
 * operations; freeing an entry has no counterpart.
 */
module FfsIndex {
  import opened FfsTypes

  /**
   * An index entry. An inode entry records where the inode lives and its
   * newest block (fi_last_block, the tail); a block entry records where the
   * block's header lives.
   */
  datatype Entry =
    | InodeEntry(inodeLoc: FlashLoc, lastBlock: Option<uint32>)
    | BlockEntry(blockLoc: FlashLoc)

  type Index = map<uint32, Entry>

  /** The minimal form of a block entry handed to the block layer (ffs_hash_entry). */
  datatype HashEntry = HashEntry(id: uint32, loc: FlashLoc)

  /**
   * ffs_hash_find_inode: the inode entry with this id, if indexed. The
   * source asserts that the id is an inode id; here an id whose entry is a
   * block is simply not found.
   */
  function FindInode(index: Index, id: uint32): (r: Option<uint32>)
    ensures r.Some? <==> id in index && index[id].InodeEntry?
    ensures r.Some? ==> r.value == id
  {
    if id in index && index[id].InodeEntry? then Some(id) else None
  }

  /**
   * ffs_hash_find_block: the block entry with this id, if indexed. The
   * source asserts that the id is a block id; here an id whose entry is an
   * inode is simply not found.
   */
  function FindBlock(index: Index, id: uint32): (r: Option<uint32>)
    ensures r.Some? <==> id in index && index[id].BlockEntry?
    ensures r.Some? ==> r.value == id
  {
    if id in index && index[id].BlockEntry? then Some(id) else None
  }

  /** Block entries sit exactly at block ids (so never at ID_NONE). */
  predicate IndexConsistent(index: Index) {
    forall id :: id in index ==> (index[id].BlockEntry? <==> IsBlockId(id))
  }
}
