# Data-block layer of a log-structured flash file system, in Dafny

This project models `src/ffs_block.c`, the data-block layer of the flash file
system (ffs). A file is stored as a chain of immutable block records. Each
record is a fixed-size header followed by its payload. The header names the
block's id, a sequence number, the owning inode, the previous block of the
chain (or `FFS_ID_NONE` for the first block) and the payload length. The
layer does five things, and the model covers each:

- it reads and validates a header at a flash location (`ffs_block_read_disk`);
- it reserves space and writes a header and its payload (`ffs_block_write_disk`);
- it builds the RAM handle of a block (`struct ffs_block`), either unlinked or
  with its inode and predecessor resolved through the object index;
- it encodes a handle back into a header (`ffs_block_to_disk`);
- it deletes a block from RAM, repairing the owning inode's tail
  (`fi_last_block`) first (`ffs_block_delete_from_ram`).

Files, one module each:

- `types.dfy` (`FfsTypes`): 8- and 32-bit integers, error codes, the header
  (`DiskBlock`) and the RAM handle (`Block`). Pointers are written as the ids of
  the entries they point to, and a null pointer as `None`.
- `flash.dfy` (`FfsFlash`): stand-ins for the collaborators. Flash is kept at
  header granularity, with read and write faults fixed per location. Never-written
  flash reads as all ones. The space allocator hands out regions.
- `index.dfy` (`FfsIndex`): the object index as a map from id to an inode entry
  (holding the tail) or a block entry (holding the block's location).
- `block.dfy` (`FfsBlock`): the pure part of the layer and the properties proved
  about it. These are the codec, both projections, the encoder, the index update
  done by a delete, the round trips and the tail invariant.
- `store.dfy` (`FfsStore`): the class `BlockStore`, which holds the flash, the
  allocator and the index. Its methods `WriteDisk` and `DeleteFromRam` change
  them in place. Two client methods walk through an end-to-end example:
  in `WriteScenario`, two blocks of one file are written one after the other;
  in `DeleteScenario`, both are deleted again and the tail is checked after
  each step. The blocks have ids 0x80000000 and 0x80000001, since block ids
  lie in [0x80000000, 0xffffffff).

Constants that come from headers not part of this model are
`FFS_BLOCK_MAGIC` (0x53ba23b9), `FFS_ID_NONE` (0xffffffff) and the block-id
range [0x80000000, 0xffffffff) tested by `ffs_hash_id_is_block`. The header size
of 24 bytes comes from the six 32-bit fields of the on-flash layout. The proofs
depend on two facts about these values: `FFS_ID_NONE` is not a block id, and
`FFS_BLOCK_MAGIC` differs from 0xffffffff, the magic field of erased flash.

## Model

| member | source | states |
|---|---|---|
| `FfsBlock.ReadDisk` | src/ffs_block.c:16-32 | A flash read failure is returned with its own code. A record whose magic is not the block magic gives EUnexp, whatever its other fields hold. Otherwise the result is the stored header, which carries the block magic. |
| `FfsBlock.ErasedReadsUnexpected` | src/ffs_block.c:22-29 | A location never written since its erase (no header and no payload written there) reads as EUnexp. |
| `FfsStore.BlockStore.WriteDisk` | src/ffs_block.c:46-78 | Reserves exactly header size + `data_len` bytes. Writes the header at the reserved offset, then the payload at offset + header size, and only when `data_len > 0`. A location comes back only when every step succeeds. A reservation failure changes nothing. A header write failure leaves flash unchanged. A payload write failure leaves the header without its payload. On success the location was never written before, and a header with the block magic reads back unchanged. |
| `FfsFlash.Reserve` | src/ffs_block.c:55-59 | The reservation that write relies on: a region of exactly the requested length, disjoint from every region handed out before, or EFull. The region lies in the area being written, at or above the old cursor (so on flash not written since the erase), and the cursor moves to its end. |
| `FfsFlash.SuccessiveReservationsDisjoint` | src/ffs_block.c:55-59 | Two reservations in a row do not overlap. |
| `FfsIndex.FindInode` | src/ffs_block.c:100 | The lookup of the owning inode: found exactly when the id is indexed with an inode entry, and then it is that entry's id. A block id is "not found" here, where the source's find function fails its id-kind assertion. |
| `FfsIndex.FindBlock` | src/ffs_block.c:106 | The lookup of the predecessor: found exactly when the id is indexed with a block entry, and then it is that entry's id. An inode id is "not found" here, where the source's find function fails its id-kind assertion. |
| `FfsStore.DataLoc` | src/ffs_block.c:67 | The payload location `offset + sizeof *disk_block`: same area, offset moved past the 24-byte header, and only when that offset still fits in 32 bits. |
| `FfsBlock.FromDiskNoPtrs` | src/ffs_block.c:80-91 | Copies id, seq and data length, and records the location read from. The inode and predecessor are absent whatever the header names. |
| `FfsBlock.FromDisk` | src/ffs_block.c:93-113 | Succeeds exactly when the inode id is an indexed inode and the prev id is either `FFS_ID_NONE` or an indexed block. Every failure is ECorrupt. On success it is the unlinked projection with the inode set and the predecessor set. The predecessor is absent exactly when the prev id is `FFS_ID_NONE`. |
| `FfsBlock.ToDisk` | src/ffs_block.c:121-137 | Requires the inode reference. Sets the magic, copies id, seq and length, and sets the inode id to the inode's id. The prev id is `FFS_ID_NONE` for no predecessor and the predecessor's id otherwise. That id is never `FFS_ID_NONE` when the predecessor's id is a block id. |
| `FfsBlock.EncodeThenDecode` | src/ffs_block.c:94-137 | With a consistent index and references that resolve, linked decoding of `ToDisk(b)` at b's location gives back b. The encoded header passes the magic check. |
| `FfsBlock.DecodeThenEncode` | src/ffs_block.c:94-137 | A header with the block magic that decodes in linked form re-encodes to itself. |
| `FfsBlock.RelocateRoundTrip` | src/ffs_block.c:121-137 | Suppose `ToDisk(b)` is written at a new location. Then resolving b's index entry there gives b with only its location changed. |
| `FfsBlock.FromHashEntryNoPtrs` | src/ffs_block.c:180-200 | Requires a block id. Reads the header at the entry's location and passes through any read or magic error. Otherwise it builds the unlinked projection, so it never depends on the index. |
| `FfsBlock.FromHashEntry` | src/ffs_block.c:212-235 | Requires a block id. Reads the header at the entry's location. A read or magic error comes first, then the ECorrupt of linked construction. |
| `FfsBlock.StoredHeaderReencodes` | src/ffs_block.c:212-235 | The handle resolved through an index entry re-encodes to the exact header stored at that entry's location. |
| `FfsBlock.LinkedExtendsUnlinked` | src/ffs_block.c:98-112 | Whenever linked construction succeeds, unlinked construction succeeds too. It agrees on every field except the two references. |
| `FfsBlock.PredecessorResolves` | src/ffs_block.c:98-112 | Suppose the chains are linked and the index is consistent. Then every indexed block resolves, and so does its predecessor, with the same owning inode. |
| `FfsBlock.AncestorsResolve` | src/ffs_block.c:98-112 | Suppose the chains are linked. Then every block reached by following prev from a block of an inode (its tail, say) is an indexed block of that inode. It also resolves in linked form with that inode as owner. |
| `FfsBlock.DeleteFromIndex` | src/ffs_block.c:157-163 | The block's entry is gone and no other key changes. The owning inode's tail becomes the block's predecessor (possibly none) exactly when it was this block. Every other entry is unchanged. |
| `FfsStore.BlockStore.DeleteFromRam` | src/ffs_block.c:146-166 | If linked resolution fails, its error is returned and the index is unchanged. Otherwise the result is success and the index is the `DeleteFromIndex` update. Flash and allocator are untouched. Valid tails stay valid when the block's predecessor is another block of its inode. |
| `FfsBlock.DeleteKeepsTailsValid` | src/ffs_block.c:152-165 | Suppose every tail designates an indexed block of its own inode, and the deleted block's predecessor is a different block of the same inode. Then this still holds after the deletion, so no tail names the removed entry. |
| `FfsBlock.DeleteKeepsRestOfChain` | src/ffs_block.c:152-165 | After a block is deleted, walking k steps back from its predecessor gives what walking k + 1 steps from the block gave before. The walk must not return to the deleted block. So deleting the tail B3 of B1 <- B2 <- B3 leaves B2 as tail with B1 behind it. |
| `FfsBlock.AncestorIgnoresRemoved` | src/ffs_block.c:162 | Removing an entry that a walk along prev never visits does not change where the walk ends. |
| `FfsBlock.SelfLinkedBlockLeavesDanglingTail` | src/ffs_block.c:152-165 | Why the hypothesis above is needed: a header naming its own id as predecessor resolves. Deleting that block leaves its inode's tail naming the removed entry. |
| `FfsBlock.ForeignPrevMovesTailToOtherInode` | src/ffs_block.c:152-165 | A header whose prev id names a block of another inode resolves. Deleting it makes that foreign block the tail of the deleted block's inode, so the tails are no longer valid. |

## Left out

- Raw flash I/O (`ffs_flash_read`, `ffs_flash_write`) is not modelled as device access. Flash is a map from the location where a header was written to that header, plus a map of payloads. Device failures are fixed per location (`readFaults`, `writeFaults`). Partial writes and bytes left by a failed write are not modelled.
- `FfsBlock.ReadDisk` at an offset where no header starts, such as inside a written payload or header, reads all ones in the model and so gives EUnexp. The device returns the bytes stored there, and the source accepts them as a header whenever they start with `FFS_BLOCK_MAGIC`. Flash is kept as whole records rather than bytes, so such overlapping reads are not modelled.
- Byte layout and endianness of `struct ffs_disk_block` are not modelled. The header is a record, and a read at a location that holds another record kind returns that record seen as a block header.
- `FfsFlash.Reserve`: the allocation policy of `ffs_misc_reserve_space` (area choice, wear levelling, garbage collection) is left out. The stand-in allocates upward in one area and fails with EFull when that area is full. `WriteDisk` relies only on its contract: exact length, no overlap with earlier regions, and placement at or above the cursor, so a write lands on unwritten flash. The example clients also use the concrete offsets it picks.
- The hash table (`ffs_hash_find_inode`, `ffs_hash_find_block`, `ffs_hash_remove`, `ffs_hash_entry_free`) is a map. Freeing is a no-op. The id-kind assertions inside the two find functions live in a file that is not part of this model. In the source, a wrong-kind id (a header whose inode id is a block id, or whose non-NONE prev id is an inode id) fails the find function's id-kind assertion; the model returns ECorrupt from `FfsBlock.FromDisk` instead.
- `ffs_flash_loc` / `ffs_flash_loc_expand` are not modelled as bit packing. A location is the (area, offset) pair itself, so the round trip between the two is exact.
- Integer width of the reservation size: `sizeof header + fdb_data_len` is computed without wrap-around. The parameter type of `ffs_misc_reserve_space` is in a file that is not part of this model. Offsets stay below 2^32 because an area is shorter than 2^32 bytes.
- `FfsStore.BlockStore.WriteDisk`: the payload is a byte sequence whose length is the header's `data_len`. This is the caller's obligation for the `data` pointer. Recovery of a truncated record after a failed payload write belongs to the mount-time scan and is not modelled.
- Index insertion and tail advance after a write are done by callers of this layer. They appear only in `DeleteScenario`.

## Findings

| source | as written | input that shows it | evidently intended | confidence | as-written member | corrected member |
|---|---|---|---|---|---|---|
| src/ffs_block.c:105-110, 158-163 | Linked construction accepts any indexed block as predecessor. The delete then moves the tail to it and frees the entry. | A block whose header names its own id as prev id, and which is its inode's tail: after the delete, `fi_last_block` points at the freed entry. A prev id naming a block of another inode moves that block into this inode's tail. | The tail moves only to a different block of the same inode, so every tail stays an indexed block of its own inode. | medium, not executed | `FfsBlock.SelfLinkedBlockLeavesDanglingTail` | `FfsBlock.DeleteKeepsTailsValid` |
