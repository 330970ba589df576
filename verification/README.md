# A model of relay-os with proofs

relay-os is a small operating system. This project models the parts of it where a mistake would be
hardest to see, in Dafny, and proves what they are for. `dafny verify dfyconfig.toml` checks all of it.

**The ext2 driver's write path** (`crates/ext2`) is modelled from bits and bytes up to names, as one
mounted filesystem `Volume.Ext2` that the operations change in place:

- `Bitmap`, `Allocator`, `InodeAlloc`: bitmaps and two levels of free counts.
- `BlockPath`, `FileLimit`, `Trees`, `BlockMap`, `Freeing`: a file's direct, single, double and triple
  indirect pointers. A `Loc` is a place in a pointer tree, and the ghost map `tree` says which block is at
  which place, for all files at once. `Mapped` ties it to the pointers on disk, the bitmaps, the counts and
  `i_blocks`.
- `Layout`: where the blocks of a growing file go. `FileData`, `FileOps`: a file as a byte sequence.
- `Dirent`, `DirentRun`, `InPlace`, `Directory`, `DirOps`: directory blocks as packed records, and
  directories as maps from names to inodes. `EntryTypes`, `DirTypes`: the type byte of every entry.
- `Namespace`: names as a tree, on its own. `NameTree`: the namespace read off the disk (`NsOf`) and how it
  follows each change. `InodeUse`, `NameOps`, `Ops`, `Rename`: creating, removing and renaming.
- `Run`: every run of calls on a sound volume (`NameOps.VolumeOk`) keeps it sound and is a run of a
  filesystem that is only a tree of names and one byte sequence per file, which says which error each call
  gives; a count of free blocks says when space may run out. `Totals`: conservation. `Fresh`: a volume the invariants hold of.
  `Deep`: a sound tree that rename takes for a loop.
- `Cache`: the write-back block cache against a plain device. The layers above use `disk`, which is what
  `BlockCache.Content` is for each block.

**The console** (`Console`: `kernel/src/line.rs`, `kernel/src/input.rs`) is a line discipline and a queue with
raw and line modes; `Typing` says what it is for someone typing characters, Enter and Backspace. **Program
loading** (`Elf`, `Exec`) ties what the checker accepts to what the loader maps, and `Image` ties both to the
bytes of the file.
**Smaller pieces**: the pipe ring (`Pipe`), the cursor of `read_dir` (`ReadDir`), the memory map (`MemMap`)
and the calendar (`Rtc`). `Le`, `Arith`, `Sets` and `Wrappers` are shared helpers.

Four statements one would expect are not true of the code as it is. Each is proved with its exact
condition and shown to fail at an input:

- Switching the console from line to raw mode and back keeps the unread bytes unless a Ctrl-C is pending
  while 4096 bytes are unread: then the last byte is lost (`Console.RawAndBack`, `Console.LostByte`).
- A character typed on a nearly full line is kept whole or dropped whole if and only if there is room for all
  of its bytes or for none; its bytes are keys of their own (`Typing.CharWholeIff`, `Typing.HalfCharacter`).
- On a directory block whose `.` record has room for another name, as a foreign image may have, inserting
  a name that fits there puts it before `..` (`Dirent.DotsKeptIff`, `Dirent.DotDotMoved`). Blocks the driver
  makes never have one.
- The ancestor walk of rename gives up on a directory more than 4096 levels deep, although the tree is
  sound (`Rename.IsAncestor`, `Totals.WalkReaches`, `Deep.DeepMove`).

## Model

| member | source | states |
|---|---|---|
| `Run.RunAll` | crates/ext2/src/lib.rs:265-319 | every sequence of creates, writes, truncates, unlinks, rmdirs, renames, reads, lookups and stats on a sound volume ends in a sound volume and is, step by step, a run of a filesystem that is just a tree of names with one byte sequence per file; that filesystem gives each call's errors in order, a call it allows fails only for space, and a failure changes nothing; the kinds of reserved inodes stay, and entries that all have the type byte of their inode still do |
| `Run.Answered` | crates/ext2/src/lib.rs:285-319 | one call of such a run, a change, read, lookup or stat, refines its abstract step |
| `Run.Apply` | crates/ext2/src/lib.rs:289-319 | each changing operation keeps every invariant of the volume and refines its abstract step, which fixes every error but `ENOSPC` and ties that one to what is used up; an error changes neither a name, a byte nor a count |
| `Ops.ChangeAllowed` | crates/ext2/src/ops.rs:15-25 | a change in a directory is refused at once exactly when the volume is read-only, the namespace has no such directory, or the name is not an ordinary one |
| `Run.FileAllowed` | crates/ext2/src/file.rs:138-171 | for every inode number, reserved ones too, the error of a file operation is the one names and kinds give: no such inode, a read-only volume, a directory, or no regular file, in that order |
| `Run.MoveErrorsAre` | crates/ext2/src/rename.rs:43-99 | the error of a move is the one the names, kinds and limits give, whatever is on disk |
| `Run.MoveRefused` | crates/ext2/src/rename.rs:50-99 | a move that would break the tree is refused for what it is; one that keeps it only with `EIO` for a target more than 4096 levels deep, or with `ENOSPC` when a new name for a directory meets a parent whose links are at their limit |
| `Run.DoCreate` | crates/ext2/src/ops.rs:30-55 | a create adds exactly one name for a number nothing had, a regular file starting empty, and leaves every other file's bytes; it takes at most five blocks, and `ENOSPC` comes only when inode numbers, blocks, links or the directory's size are used up |
| `Run.DoUnlink` | crates/ext2/src/ops.rs:101-111 | an unlink removes one name; the files still there keep their bytes |
| `Run.DoRemoveDir` | crates/ext2/src/ops.rs:113-130 | an rmdir removes one name of an empty directory and changes no file's bytes |
| `Run.DoMove` | crates/ext2/src/rename.rs:43-151 | a rename is the abstract move, and no surviving file's bytes change; it takes at most four blocks; its error is the one of `MoveErrorsAre`, or `ENOSPC` when a new name has no place |
| `Run.DoWrite` | crates/ext2/src/file.rs:230-258 | a write changes one file, by exactly the prefix reported, and no name; it stops short or fails with `ENOSPC` only with fewer than four blocks free, and with `EFBIG` exactly past the largest file |
| `Run.DoTruncate` | crates/ext2/src/file.rs:260-282 | a truncate cuts or zero-pads one file and changes no name; it takes no block and fails with `EFBIG` exactly past the largest file |
| `Run.DoRead` | crates/ext2/src/file.rs:138-157 | a read answers from the byte sequence the file is, whatever run came before |
| `Run.DoStat` | crates/ext2/src/inode.rs:358-402 | a stat gives the kind, the links the names make and the length of the bytes, for everything the names lead to; of the rest a reserved inode in use is found with its kind, else `ENOENT` |
| `Run.DoLookup` | crates/ext2/src/dir.rs:106-115 | a lookup goes down a name, stays at `.` and goes up at `..` as the tree of names has it, else `ENOENT` or `ENOTDIR` |
| `Run.BytesStay` | crates/ext2/src/lib.rs:265-319 | over a whole run a file that stays and that no call writes keeps its bytes |
| `Totals.BlocksConserved` | crates/ext2/src/allocator.rs:24-88 | free count plus metadata blocks plus blocks of the files' trees is every block of the volume, and each tree block is at one place of one file and not metadata |
| `Totals.FreeTotal` | crates/ext2/src/allocator.rs:24-32 | the superblock's free block count is the number of blocks the bitmaps leave clear |
| `Totals.FreeInodeTotal` | crates/ext2/src/allocator.rs:90-105 | the superblock's free inode count plus the inode numbers marked is all of them |
| `Totals.NumbersLeft` | crates/ext2/src/allocator.rs:90-105 | the free inode count plus the inodes names lead to is fixed: the names determine how many numbers are left |
| `Totals.WalkReaches` | crates/ext2/src/rename.rs:13-41 | directories and free inodes fit the inode count, so the ancestor walk gives up exactly when neither end is within 4096 levels, and never with at most 4096 directories |
| `Fresh.Format` | crates/ext2/src/lib.rs:82-147 | a concrete volume with an empty root satisfies every invariant a mounted volume is assumed to have, and its entries have the types of their inodes |
| `BlockPath.FindPath` | crates/ext2/src/inode.rs:306-330 | `map_path` gives a path exactly for logical blocks below 12 + p + p² + p³, and it leads to the one data place of that block |
| `BlockPath.LeafFor` | crates/ext2/src/inode.rs:306-330 | every logical block in reach has a valid data place whose first block is that block |
| `BlockPath.LeafIsFor` | crates/ext2/src/inode.rs:306-330 | every valid data place is the place of its logical block: with `LeafFor`, paths and logical blocks correspond one to one |
| `BlockPath.PathIsLeaf` | crates/ext2/src/inode.rs:306-330 | an index path made of the base-p digits of the offset leads to the leaf of that logical block |
| `FileLimit.LimitReached` | crates/ext2/src/inode.rs:272-294 | the largest file never passes what the pointers reach |
| `FileLimit.MaxBlocksAre` | crates/ext2/src/inode.rs:272-294 | the largest file in blocks for the three block sizes the driver takes |
| `FileLimit.BlocksFit` | crates/ext2/src/inode.rs:193-201 | any set of places of a file within the limit, dense or sparse, counts to at most 2³² − 1 units of 512 bytes |
| `BlockMap.CountMore` | crates/ext2/src/inode.rs:193-201 | with one block more `i_blocks` grows by exactly one block and never saturates |
| `BlockMap.CountLess` | crates/ext2/src/inode.rs:193-201 | with one block less `i_blocks` falls by exactly one block and never saturates |
| `BlockMap.Bmap` | crates/ext2/src/file.rs:45-62 | on a sound volume the walk finds the block the tree has at that place, or a hole |
| `BlockMap.BlockGoal` | crates/ext2/src/file.rs:107-115 | the goal is the block after the previous logical block's, else the start of the inode's group |
| `BlockMap.EnterBlock` | crates/ext2/src/file.rs:89-101 | a new zeroed block at an empty place adds that place to the trees and nothing else, and takes the free block closest to the goal |
| `BlockMap.BmapAlloc` | crates/ext2/src/file.rs:68-103 | the block is then mapped, no other place of any file changes, new data reads zero; each missing block of the path is the free one closest to the goal, which starts after the previous logical block, else at the inode's group, and then is the block after the one just taken; `ENOSPC` exactly when the missing path needs more blocks than are free, and then nothing changed; `EFBIG` exactly past the pointers' reach |
| `Layout.PlacedRun` | crates/ext2/src/file.rs:68-115 | a path placed where the blocks from the goal on are free takes exactly those, in order |
| `Layout.ContinuesMore` | crates/ext2/src/file.rs:199-228 | a file that grows block by block behind its last one stays in a row, index blocks included, as long as the blocks there are free |
| `Trees.EnterOk` | crates/ext2/src/file.rs:89-101 | a fresh block entered at an empty place keeps the trees sound and every data block's contents |
| `Trees.DropOk` | crates/ext2/src/file.rs:357-376 | a place with nothing below can go: the rest of the trees and their data stay |
| `Freeing.FreeFrom` | crates/ext2/src/file.rs:295-320 | exactly the data blocks from `first` on and the indirect blocks left without a pointer go, each once, and as many blocks become free; the remaining data blocks keep their bytes |
| `Freeing.FreeTree` | crates/ext2/src/file.rs:328-377 | recursion over one indirect block: it is freed exactly when nothing below it stays |
| `Freeing.FreeEntries` | crates/ext2/src/file.rs:351-370 | the loop over its pointers prunes exactly the dead places and says whether any pointer stays |
| `Freeing.CutBlocks` | crates/ext2/src/file.rs:295-320 | after cutting, every logical block below `first` is where it was, none is mapped from there on, and no other file's is changed |
| `Freeing.CutKeepsUsed` | crates/ext2/src/file.rs:328-377 | no indirect block reaching past `first` is left without a pointer |
| `FileData.ReadData` | crates/ext2/src/file.rs:119-136 | the bytes read are those of the data blocks, zero in holes |
| `FileData.WriteData` | crates/ext2/src/file.rs:199-228 | exactly the reported prefix is laid over the file, other files' data stay, and it stops early exactly where the missing path to the next block needs more blocks than are free; what it appends behind the last block lies in a row where the blocks there are free |
| `FileData.WrittenReadsBack` | crates/ext2/src/file.rs:138-258 | what was written is read back |
| `FileData.WrittenElsewhere` | crates/ext2/src/file.rs:138-258 | a read elsewhere gives what it gave, and zero in a gap the write made |
| `FileData.ReadInParts` | crates/ext2/src/file.rs:138-157 | reads one after the other give what one read of both gives |
| `FileData.CutReadsZero` | crates/ext2/src/file.rs:260-282 | after a cut and any new size the bytes cut off read zero and the others are as they were |
| `FileOps.ZeroTail` | crates/ext2/src/file.rs:175-184 | the rest of the block from the new end on is zero and nothing else changes |
| `FileOps.FileRead` | crates/ext2/src/file.rs:138-157 | the bytes of the file at the offset, cut at its end; errors as the driver orders them |
| `FileOps.FileWrite` | crates/ext2/src/file.rs:230-258 | the file becomes its bytes, zero-padded to the offset, overlaid by exactly the bytes reported; `ENOSPC` exactly when the first block's missing path needs more blocks than are free, a short count exactly when a later one does; `EFBIG`, `ENOSPC` and refusals leave the bytes; what is appended lies in a row where the blocks there are free |
| `FileOps.FileTruncate` | crates/ext2/src/file.rs:260-282 | the file becomes its first bytes or its bytes zero-padded, so bytes cut off never come back; places gone equal blocks freed |
| `FileOps.Shrink` | crates/ext2/src/file.rs:269-278 | the shrinking branch: blocks past the end freed, the tail of the last block zeroed |
| `Bitmap.Set` | crates/ext2/src/bitmap.rs:8-10 | sets that bit and no other |
| `Bitmap.Clear` | crates/ext2/src/bitmap.rs:12-14 | clears that bit and no other |
| `Bitmap.FirstZero` | crates/ext2/src/bitmap.rs:17-31 | skipping whole used bytes still finds the first clear bit, or none exactly when all are set |
| `Bitmap.FindZero` | crates/ext2/src/bitmap.rs:35-38 | the first clear bit at or after the goal, else the first before it, else none exactly when all are set |
| `Allocator.FindFree` | crates/ext2/src/allocator.rs:37-62 | the unmarked block nearest the goal: the first at or after it in its group, else the first before it there, else the first of the next group in turn that has one; none exactly when every group is exhausted |
| `Allocator.TurnReaches` | crates/ext2/src/allocator.rs:45-47 | the search from any group comes round to every group |
| `Allocator.AllocBlock` | crates/ext2/src/allocator.rs:37-68 | marks exactly one block nothing used; with agreeing counts it is the free block closest to the goal, the counts keep agreeing, and it fails exactly when none is free, with nothing changed |
| `Allocator.NearestIsClosest` | crates/ext2/src/allocator.rs:37-62 | with counts that agree with the bitmaps no free block comes before the one found, counting from the goal through its group, round to its start, and on through the other groups |
| `Allocator.FreeBlock` | crates/ext2/src/allocator.rs:72-88 | clears exactly that block; a block outside, in metadata or already free is left alone with the counts |
| `Allocator.CountFreeBlocks` | crates/ext2/src/allocator.rs:24-32 | within the limits of the fields the superblock's free count stays the sum of the groups' |
| `Allocator.CountsFit` | crates/ext2/src/allocator.rs:24-32 | counts that agree with the bitmaps never reach their saturation limits |
| `InodeAlloc.MostFree` | crates/ext2/src/allocator.rs:115-121 | a directory goes to the group with the most free inodes, the lowest of equals |
| `InodeAlloc.FindInode` | crates/ext2/src/allocator.rs:125-134 | the lowest unmarked number, never a reserved one, of the first group in turn that has one; none exactly when no group has |
| `InodeAlloc.FirstIsPicked` | crates/ext2/src/allocator.rs:125-134 | with counts that agree with the bitmaps no unused number comes before the one found, counting through the groups in turn |
| `InodeAlloc.PickInode` | crates/ext2/src/allocator.rs:110-134 | a directory's number comes from the group with the most free inodes, the lowest of equals, a file's from its parent's group, else from the next in turn |
| `InodeAlloc.AllocInode` | crates/ext2/src/allocator.rs:110-140 | marks exactly one unused number at or past the first for files: with agreeing counts no unused number comes before it, counting from the emptiest group for a directory, else from the parent's; counts and directory counts keep agreeing; fails exactly when none is free |
| `InodeAlloc.FreeInode` | crates/ext2/src/allocator.rs:144-155 | clears exactly that number; one already free is left alone with the counts |
| `InodeUse.TakeInode` | crates/ext2/src/allocator.rs:110-140 | on a sound volume a new number belongs to an unused inode without blocks and is the first unused one in the order `AllocInode` counts; `ENOSPC` exactly when none is free |
| `InodeUse.ReturnInode` | crates/ext2/src/allocator.rs:144-155 | giving a number back keeps bitmaps, counts and inodes in agreement |
| `NameOps.ReleaseInode` | crates/ext2/src/allocator.rs:162-183 | a file without links gives back all its blocks and its number; every other file, every name and every entry's type stay |
| `NameOps.FreeAll` | crates/ext2/src/allocator.rs:162-176 | all places of one inode go, the others stay, and as many blocks become free |
| `NameOps.Enter` | crates/ext2/src/dir.rs:135-168 | on a sound volume one more name, with the type byte of the kind given, every other entry keeping its own |
| `NameOps.Leave` | crates/ext2/src/dir.rs:179-187 | on a sound volume one name less, the other entries keeping their types |
| `NameOps.Point` | crates/ext2/src/rename.rs:102-121 | on a sound volume one name leads to another inode and has that one's type byte |
| `NameOps.Reparent` | crates/ext2/src/rename.rs:135-148 | on a sound volume `..` leads to another parent and has the type byte of a directory |
| `Dirent.RecLenFor` | crates/ext2/src/dirent.rs:32-34 | the smallest multiple of four that holds header and name |
| `Dirent.Parse` | crates/ext2/src/dirent.rs:152-188 | returns the entries exactly when records tile the block as the format demands |
| `Dirent.ListsOnce` | crates/ext2/src/dirent.rs:152-188 | a block has at most one list of entries |
| `Dirent.CheckNames` | crates/ext2/src/dirent.rs:194-219 | accepts exactly blocks whose names are well formed, with `.` and `..` first in a first block and nowhere else |
| `Dirent.Room` | crates/ext2/src/dirent.rs:80-89 | the first entry with room, or none has |
| `Dirent.InsertOk` | crates/ext2/src/dirent.rs:94-109 | after an insertion the block still parses and its map is the old one plus that name, with and without the file type byte |
| `Dirent.RemoveOk` | crates/ext2/src/dirent.rs:113-118 | after a removal the block still parses and its map is the old one less that name |
| `Dirent.RetargetOk` | crates/ext2/src/dirent.rs:122-127 | after a retarget only that name's inode differs |
| `EntryTypes.InsertTyped` | crates/ext2/src/dirent.rs:94-109 | the new entry of an insertion has the type byte it was given, and every other entry of the block keeps its own |
| `EntryTypes.RetargetTyped` | crates/ext2/src/dirent.rs:122-127 | a retargeted entry has the type byte it was given, and every other entry keeps its own |
| `EntryTypes.RemoveTyped` | crates/ext2/src/dirent.rs:113-118 | a removal leaves every other entry its type byte |
| `Dirent.InitDirOk` | crates/ext2/src/dirent.rs:136-141 | a new first block parses as `.` and `..` alone |
| `Dirent.InitEmptyOk` | crates/ext2/src/dirent.rs:130-133 | an empty block parses as one unused record |
| `Dirent.SoundInsert` | crates/ext2/src/dirent.rs:94-109 | inserting an ordinary name keeps the block sound: `.` and `..` stay first, names stay distinct |
| `Dirent.SoundRemove` | crates/ext2/src/dirent.rs:113-118 | removing an ordinary name keeps the block sound |
| `Dirent.SoundRetarget` | crates/ext2/src/dirent.rs:122-127 | retargeting keeps the block sound; for `..` the parent changes |
| `Dirent.DotsKeptIff` | crates/ext2/src/dirent.rs:80-109 | on a foreign block with a longer `.` record, insertion at the first room keeps `.` and `..` first if and only if the `.` record itself has no room for the name |
| `Dirent.DotDotMoved` | crates/ext2/src/dirent.rs:80-109 | a block with 12 bytes to spare in its `.` record passes `check_names` before an insertion at the first room and not after it |
| `DirentRun.RunGood` | crates/ext2/src/dirent.rs:80-141 | every block reachable by insertions at the first room and removals parses, keeps `.` and `..` first and holds exactly the names added and not removed |
| `DirentRun.StartGood` | crates/ext2/src/dirent.rs:130-141 | such runs can start at a new first block or an empty block |
| `InPlace.SetBit` | crates/ext2/src/bitmap.rs:8-10 | the change to the buffer is the one the bitmap functions describe |
| `InPlace.ClearBit` | crates/ext2/src/bitmap.rs:12-14 | the change to the buffer is the one the bitmap functions describe |
| `InPlace.WriteRecord` | crates/ext2/src/dirent.rs:52-70 | field by field writes leave the same bytes as one whole record |
| `InPlace.InsertRecord` | crates/ext2/src/dirent.rs:94-109 | the buffer becomes the block `InsertOk` is about |
| `InPlace.RemoveRecord` | crates/ext2/src/dirent.rs:113-118 | the buffer becomes the block `RemoveOk` is about |
| `InPlace.RetargetRecordAt` | crates/ext2/src/dirent.rs:122-127 | the buffer becomes the block `RetargetOk` is about |
| `InPlace.MakeEmpty` | crates/ext2/src/dirent.rs:130-133 | whatever the buffer held, it becomes the empty block |
| `InPlace.MakeDir` | crates/ext2/src/dirent.rs:136-141 | whatever the buffer held, it becomes the new first block |
| `DirOps.DirBlock` | crates/ext2/src/dir.rs:34-90 | a round of the scan gives each block once, with the entries it parses to |
| `DirOps.FindEntry` | crates/ext2/src/dir.rs:93-104 | found exactly when the directory's map has the name, with its inode and place |
| `DirOps.DirIsEmpty` | crates/ext2/src/dir.rs:190-198 | true exactly when the map has only `.` and `..` |
| `DirOps.FindRoom` | crates/ext2/src/dir.rs:142-144 | the first record of the directory with room, or none exactly when every block is full for a name that long |
| `DirOps.GrowDir` | crates/ext2/src/dir.rs:145-162 | one more empty block and the same names, all other data as it was; `ENOSPC` exactly when the size limit is reached or the missing path to the new block needs more blocks than are free, and then nothing changed |
| `DirOps.AddEntry` | crates/ext2/src/dir.rs:135-168 | the map gains exactly that name, by a record with its kind's type byte in the first room there is, a new block being last; `ENOSPC` exactly when no record has room and the directory cannot grow, and then nothing changed |
| `DirOps.RemoveEntry` | crates/ext2/src/dir.rs:179-187 | the map loses exactly that name, by cutting that record and touching no other block |
| `DirOps.RetargetEntry` | crates/ext2/src/rename.rs:102-148 | the map changes at exactly that name, whose record gets the inode and the type byte; for `..` the directory has another parent |
| `DirTypes.PutTyped` | crates/ext2/src/dir.rs:135-168 | in a whole directory an entry added has its type byte and the others keep theirs |
| `DirTypes.TypesFollow` | crates/ext2/src/ops.rs:30-130 | a step that writes each new entry with the kind of its inode and leaves the others keeps the invariant that every entry, `.` and `..` too, has the type byte of the inode it names |
| `DirTypes.TypeTells` | crates/ext2/src/dirent.rs:36-48 | under that invariant the byte of an entry tells what it names: 1 exactly for regular files, 2 for directories, 7 for symbolic links |
| `DirTypes.RenamedFits` | crates/ext2/src/rename.rs:102-148 | the types a rename writes, of the new name and of `..` of a directory that moved, are those of the inodes they name afterwards |
| `DirTypes.MadeFits` | crates/ext2/src/ops.rs:59-73 | so are those a create writes, of the new name and of `.` and `..` of a new directory |
| `Ops.NameError` | crates/vfs/src/path.rs:68-78 | refuses exactly names that are not ordinary |
| `Ops.DirForChange` | crates/ext2/src/ops.rs:15-25 | on a sound volume the parent is handed out exactly when the volume is writable, the namespace has that directory and the name is ordinary; else the error in the driver's order |
| `Ops.LinkNew` | crates/ext2/src/ops.rs:59-73 | the new inode made whole and entered; until it is, only it changed |
| `Ops.Undo` | crates/ext2/src/ops.rs:44-48 | freeing what was allocated restores trees, data and inodes |
| `Ops.CountsDetermined` | crates/ext2/src/ops.rs:44-48 | blocks marked determine both levels of counts, so undoing restores them |
| `Ops.InodesDetermined` | crates/ext2/src/ops.rs:44-48 | inodes in use determine both levels of counts and the directory counts |
| `Ops.Make` | crates/ext2/src/ops.rs:30-55 | the namespace gains exactly one entry and inode, or the error in order; the number is the first unused one, of the emptiest group for a directory, else of the parent's; the new entries have the type bytes of their inodes and the others keep theirs; `ENOSPC` exactly when the links, the inode numbers, the new directory's block or a place for the name run out, and a failure restores every count, tree and byte |
| `Ops.CheckParent` | crates/ext2/src/ops.rs:80-88 | accepts exactly when `..` names that parent |
| `Ops.DropLink` | crates/ext2/src/ops.rs:91-99 | one link less, or with the last one the inode and its blocks freed |
| `Ops.RemoveFile` | crates/ext2/src/ops.rs:101-111 | exactly one name of a file goes and the other entries keep their types; the error is determined by the namespace, and then nothing changed |
| `Ops.RemoveDir` | crates/ext2/src/ops.rs:113-130 | exactly one empty directory goes, its parent loses a link and the other entries keep their types; the error is determined by the namespace, and then nothing changed |
| `Rename.IsAncestor` | crates/ext2/src/rename.rs:21-41 | when it answers, the answer is whether the directory is at or above the other; it gives up with `EIO` exactly when neither it nor the root is within the bound |
| `Rename.NeverTooDeep` | crates/ext2/src/rename.rs:13-41 | with at most one directory more than the bound it never gives up |
| `Deep.DeepMove` | crates/ext2/src/rename.rs:13-41 | a sound namespace with a line of directories longer than the bound: moving a directory to its end keeps the tree and is refused with `EIO` |
| `Deep.TooDeepForRename` | crates/ext2/src/rename.rs:13-41 | such a namespace exists for the driver's bound |
| `Rename.MoveEntry` | crates/ext2/src/rename.rs:43-151 | the namespace becomes the renamed one, target replaced or not, or the error determined by the old namespace with nothing changed, `ENOSPC` exactly when there is no place for a new name; the new entry has the type byte of what moved, `..` of a moved directory that of a directory, and the others keep theirs; two names of one inode change nothing |
| `Rename.CheckTarget` | crates/ext2/src/rename.rs:76-95 | an existing target of the wrong kind or not empty is refused as rename must |
| `Namespace.MadeOk` | crates/ext2/src/ops.rs:30-73 | creating keeps the directories a tree under the root with every link count right |
| `Namespace.UnlinkedOk` | crates/ext2/src/ops.rs:101-111 | unlinking keeps the tree and every link count |
| `Namespace.DirRemovedOk` | crates/ext2/src/ops.rs:113-130 | removing an empty directory keeps the tree and every link count |
| `Namespace.RelocatedOk` | crates/ext2/src/rename.rs:96-151 | moving to a free name keeps the tree when a directory does not go below itself |
| `Namespace.RenamedOk` | crates/ext2/src/rename.rs:43-151 | rename, replacing or not, keeps the tree and every link count |
| `Namespace.NoCycle` | crates/ext2/src/rename.rs:21-41 | in such a tree no directory is above itself |
| `Namespace.DepthBound` | crates/ext2/src/rename.rs:13-41 | a directory is fewer levels below the root than there are directories |
| `NameTree.NamePut` | crates/ext2/src/dir.rs:135-168 | the namespace read off the disk follows an entry added to a directory's blocks |
| `NameTree.NameCut` | crates/ext2/src/dir.rs:179-187 | it follows an entry removed |
| `NameTree.UpPut` | crates/ext2/src/rename.rs:135-148 | it follows a `..` pointed at another parent |
| `NameTree.InodeWent` | crates/ext2/src/allocator.rs:162-183 | it follows an inode released |
| `NameTree.FileChanged` | crates/ext2/src/file.rs:199-282 | it does not change when a file's data does |
| `Cache.BlockCache.constructor` | crates/ext2/src/cache.rs:47-62 | an empty cache of the capacity its bytes allow shows the device |
| `Cache.BlockCache.Open` | crates/ext2/src/cache.rs:47-62 | `EINVAL` exactly when the device's block size does not divide the filesystem's; else a cache of the capacity its bytes allow |
| `Cache.CapacityFor` | crates/ext2/src/cache.rs:47-62 | as many blocks as the bytes hold, and never fewer than the least |
| `Cache.BlockCache.Read` | crates/ext2/src/cache.rs:83-86 | returns the block's content; a cached block without the device, another by exactly one read after room was made; it fails exactly when that read does, the block is past 64 bits, or every block is dirty after failed writes; reads, evictions, early write-outs and failures change the content of no block |
| `Cache.BlockCache.Write` | crates/ext2/src/cache.rs:90-94 | changes the content of its block by the update and of no other; a cached block needs no read and cannot fail, another is fetched as `Load` says; on an error no content changes |
| `Cache.BlockCache.Zeroed` | crates/ext2/src/cache.rs:98-108 | its block's content is zeros, no other's changes, the device is not read, and it can fail only when every block is dirty after failed writes |
| `Cache.BlockCache.Sync` | crates/ext2/src/cache.rs:113-117 | the dirty blocks are written, then the device is flushed exactly once; `Ok` exactly when nothing stays dirty and the flush succeeded, and then the device is the content everywhere; the content never changes |
| `Cache.BlockCache.WriteBack` | crates/ext2/src/cache.rs:121-153 | the dirty blocks are tried in ascending order, each longest run of consecutive ones of at most 64 KiB in one request and, if it fails, block by block; exactly the blocks whose own write failed stay dirty, and only dirty blocks of the device change |
| `Cache.RunLength` | crates/ext2/src/cache.rs:121-153 | the longest run of consecutive blocks from there on, cut at the largest request |
| `Cache.BlockCache.WriteNext` | crates/ext2/src/cache.rs:131-151 | one run, and if it fails its blocks singly |
| `Cache.BlockCache.WriteRun` | crates/ext2/src/cache.rs:157-182 | one request stores or spoils only its blocks, and only a success marks them clean |
| `Cache.RunStored` | crates/ext2/src/cache.rs:157-182 | a merged run stores the same bytes as block-by-block writes |
| `Cache.BlockCache.BackKeeps` | crates/ext2/src/cache.rs:121-182 | writing back, failed or not, changes the content of no block |
| `Cache.BlockCache.AllOnDevice` | crates/ext2/src/cache.rs:113-117 | without dirty blocks the device is the content everywhere |
| `Cache.BlockCache.Load` | crates/ext2/src/cache.rs:190-201 | the block is then cached and just used; one that was cached without asking the device, another by one read of exactly its bytes; it fails exactly when that read fails, the block's address passes 64 bits, or no room can be made because every block is dirty after failed writes; contents stay |
| `Cache.BlockCache.MakeRoom` | crates/ext2/src/cache.rs:206-217 | room for one more, evicting exactly the least recently used clean block and writing only when all are dirty; while no write has failed it never fails, and it fails only with every block dirty |
| `Cache.BlockCache.Evict` | crates/ext2/src/cache.rs:206-217 | the block dropped is the clean one used longest ago, and its content stays on the device |
| `Cache.BlockCache.Insert` | crates/ext2/src/cache.rs:219-231 | one more clean block, most recently used |
| `Cache.BlockCache.Touch` | crates/ext2/src/cache.rs:234-243 | only the block's last use changes, and `lru` stays exactly the clean blocks |
| `Cache.BlockCache.MarkDirty` | crates/ext2/src/cache.rs:247-260 | the block is dirty, contents stay, and while no write has failed at most half the capacity is dirty |
| `Cache.BlockCache.Spill` | crates/ext2/src/cache.rs:247-260 | without a failure there is then room for one more dirty block within half the capacity |
| `Cache.SomeClean` | crates/ext2/src/cache.rs:206-217 | fewer dirty blocks than blocks means there is one to evict |
| `Console.KeyedOk` | kernel/src/line.rs:54-106 | every key keeps the line within 4096 bytes with what waits, with room for Enter whenever something is typed |
| `Console.KeyedAllOk` | kernel/src/line.rs:54-106 | so does every sequence of keys |
| `Console.ReadOk` | kernel/src/line.rs:129-148 | a read takes the first bytes that wait and keeps the rest and the bounds |
| `Console.Retyped` | kernel/src/line.rs:54-159 | what the discipline gave back, typed again, gives the same bytes, none dropped |
| `Console.TypedRetypable` | kernel/src/line.rs:153-159 | everything the discipline can hold can be typed again |
| `Console.LineDiscipline.Input` | kernel/src/line.rs:54-106 | a key's effect and echo are the abstract key step, which `Typing` ties to an editor of characters |
| `Console.LineDiscipline.HandOver` | kernel/src/line.rs:109-112 | nothing typed is lost or reordered, and a line with room for it leaves the discipline within its bounds |
| `Console.LineDiscipline.Read` | kernel/src/line.rs:129-148 | bytes read and bytes kept make up what was typed; nothing only when no line waits |
| `Console.LineDiscipline.TakeAll` | kernel/src/line.rs:153-159 | everything typed and not read, in order, and nothing stays |
| `Typing.StrokeTyped` | kernel/src/line.rs:54-112 | a character, Enter in either form, Backspace, Ctrl-D, Ctrl-C or any other key does to the discipline what it does to an editor that holds characters, and echoes what it should |
| `Typing.SessionTyped` | kernel/src/line.rs:54-112 | so does every sequence of them while there is room: the lines handed over are the characters typed and not taken back |
| `Typing.SessionCut` | kernel/src/input.rs:232-249 | the bytes of such a session are cut into exactly its keys, escape sequences whole |
| `Typing.BytesTyped` | kernel/src/line.rs:98-103 | bytes typed on a full line are kept as far as there is room, and only those are echoed |
| `Typing.CharWholeIff` | kernel/src/line.rs:98-103 | a character is kept whole or dropped whole if and only if there is room for all of its bytes or for none |
| `Typing.HalfCharacter` | kernel/src/line.rs:98-103 | after 4094 bytes, of a character of two bytes the first stays |
| `Typing.BackTakesOne` | kernel/src/line.rs:88-96 | Backspace takes exactly the bytes of the last character |
| `Typing.InterruptDrops` | kernel/src/line.rs:61-66 | whatever was typed, after a Ctrl-C only what comes behind it counts |
| `Typing.LineComesWhole` | kernel/src/line.rs:129-148 | a reader gets each line whole, whatever the size of its buffer, and no byte of the next |
| `Typing.SequenceCompletes` | kernel/src/input.rs:152-171 | an escape sequence arriving byte by byte is complete with its last byte and not before |
| `Console.InputQueue.Push` | kernel/src/input.rs:190-211 | raw input is kept to 4096 bytes with a Ctrl-C dropping what came before; in line mode every key reaches the discipline; each field after the call is determined |
| `Console.InputQueue.PushSerial` | kernel/src/input.rs:152-171 | an escape sequence from the serial line goes in whole or not at all, to the raw bytes or as keys of the line, and Ctrl-C ends it |
| `Console.InputQueue.Expire` | kernel/src/input.rs:176-184 | a lone escape goes in after the timeout, to the raw bytes or as a key of the line, a longer unfinished sequence is dropped, and nothing happens before it |
| `Console.InputQueue.Pop` | kernel/src/input.rs:214-219 | the oldest raw byte, none exactly when there is none |
| `Console.InputQueue.Read` | kernel/src/input.rs:129-146 | bytes read and bytes kept make up the unread bytes in either mode |
| `Console.InputQueue.TakeRawInterrupt` | kernel/src/input.rs:98-106 | a raw Ctrl-C is the first byte or not there; taking it leaves the rest |
| `Console.InterruptHandedOn` | kernel/src/input.rs:73-119 | a Ctrl-C a dead process group leaves is taken by whoever reads in raw mode next, once, before everything typed |
| `Console.InputQueue.SetLineMode` | kernel/src/input.rs:73-93 | both hand-overs keep the invariant; what was echoed is not echoed again |
| `Console.TypedAgain` | kernel/src/input.rs:73-93 | typed-ahead bytes handed to raw mode and back give the same lines |
| `Console.RawAndBack` | kernel/src/input.rs:73-93 | line to raw to line echoes nothing and keeps the unread bytes if and only if it is not the case that a Ctrl-C is pending over 4096 unread bytes; then exactly the last byte is lost |
| `Console.LostByte` | kernel/src/input.rs:73-93 | a Ctrl-C and 4096 Enters typed for a dead group, then the round trip: the last byte is gone |
| `Elf.Check` | crates/elf/src/check.rs:154-260 | accepts exactly the acceptable files, every access inside the file, and returns their entry and sorted segments; a refusal names something wrong with the first bad thing in the order header, program headers, segments, entry, notes; what it reads are the fields the bytes encode (`Image.ReadsBack`) |
| `Elf.FaultyRefused` | crates/elf/src/check.rs:154-260 | no acceptable file has such a fault |
| `Elf.ReadHeaders` | crates/elf/src/check.rs:186-214 | all program headers are well formed exactly when accepted, with their load segments and notes |
| `Elf.CheckSegments` | crates/elf/src/check.rs:219-240 | accepts exactly page-disjoint ascending segments of the program area within the file |
| `Elf.HasEntry` | crates/elf/src/check.rs:241-248 | the entry point is in an executable segment |
| `Elf.RelayNote` | crates/elf/src/check.rs:265-292 | the answer is the one thing the notes say: that of the first note called Relay on the walk from 0 over whole notes, `None` when the walk reaches the end without one |
| `Elf.SaysOnce` | crates/elf/src/check.rs:265-292 | a segment's notes say exactly one thing, what the recursive walk finds |
| `Elf.FindVersion` | crates/elf/src/check.rs:249-254 | the version of the last note segment that has one, when all are well formed; else the error of the first that is not |
| `Elf.SortedOk` | crates/elf/src/check.rs:218-218 | sorting puts the segments in address order and loses none |
| `Exec.PagesApart` | crates/elf/src/check.rs:219-240 | no page belongs to two segments of an accepted program, and every page lies in the program area |
| `Exec.AddressSpace.MapZeroed` | kernel/src/mm/space.rs:54-76 | fresh zeroed pages with one permission; where the pages are free and in the program's half it succeeds exactly when there are frames for them and the page tables they still need, and frames are neither made nor lost; on a failure the first few are there and nothing else changed |
| `Exec.AddressSpace.MakeTables` | kernel/src/mm/paging.rs:221-253 | the three tables above a page are made where they are missing, each from one frame, and it fails exactly when the frames do not suffice |
| `Exec.AddressSpace.MapPage` | kernel/src/mm/paging.rs:255-277 | one page at a free aligned address, for one frame and those of its missing tables |
| `Exec.AddressSpace.Fill` | kernel/src/mm/space.rs:83-106 | mapped memory then holds the bytes, and nothing else changed |
| `Exec.LoadSegment` | kernel/src/exec.rs:95-107 | each segment's pages have its permission and its bytes are file bytes or zero; earlier segments stay; it fails for memory exactly when the frames do not suffice |
| `Exec.Load` | kernel/src/exec.rs:87-128 | into any address space, an accepted program whose pages are free loads exactly when the frames suffice for its pages, stack and missing tables (`ENOMEM`) and the strings fit (`E2BIG`); loaded, every segment, the strings and the 16-byte-aligned stack pointer are in place, what was mapped stays, and nothing else is mapped |
| `Exec.LoadedApart` | kernel/src/exec.rs:87-128 | for every accepted file each mapped page belongs to one segment of the program area with that segment's permission or to the stack, and the guard page is unmapped |
| `Image.ReadsBack` | crates/elf/src/check.rs:154-214 | for every file header and program headers laid out as the format has them, the check reads back each field it looks at, and accepts the header exactly for the fields it must |
| `Image.PhReadsBack` | crates/elf/src/check.rs:186-214 | a program header reads back as its fields |
| `Image.LoadsAre` | crates/elf/src/check.rs:186-214 | the segments are those of the loadable headers and no others, as many as there are |
| `Image.NotesAre` | crates/elf/src/check.rs:186-214 | the note segments are the note headers' bytes, in their order |
| `Image.NotesReadBack` | crates/elf/src/check.rs:265-292 | notes laid out one after the other say what the first of the system's own says |
| `Image.LoadedAsAsked` | kernel/src/exec.rs:87-128 | for every accepted file each address a program header asks for is mapped, executable exactly when bit 0 of the flags byte in the file is set and writable exactly when bit 1 is, and holds the file's byte, or zero past the header's part of the file |
| `ReadDir.OpenFile.ReadDir` | kernel/src/file.rs:273-306 | whatever the directory lists, the records written are those of exactly the next entries by name that fit; `EINVAL` exactly when one is left and none fits; errors move nothing |
| `ReadDir.TakenMost` | kernel/src/file.rs:285-304 | as many of the entries left are given as fit the buffer, and no other number |
| `ReadDir.OpenFile.Seek` | kernel/src/file.rs:232-262 | a directory goes back only to its start, where reading begins again; a file's offset is base plus delta when that is in range |
| `ReadDir.GivenAscending` | kernel/src/file.rs:273-306 | however the directory changes between calls, the names given are strictly increasing |
| `ReadDir.GivenOnce` | kernel/src/file.rs:273-306 | a name there in every state seen is given exactly once by the first call that gives nothing |
| `ReadDir.GivenOrPast` | kernel/src/file.rs:285-304 | at any time such a name was given or is after the cursor |
| `ReadDir.PartitionPoint` | kernel/src/file.rs:285-288 | splits the sorted entries at the cursor |
| `ReadDir.SortByName` | kernel/src/file.rs:283-283 | the same entries, repeated names included, in name order |
| `ReadDir.LessTotal` | kernel/src/file.rs:283-283 | byte order of names is total and irreflexive |
| `ReadDir.ParsedRecords` | crates/relay-abi/src/file.rs:165-210 | a program parsing the bytes gets back exactly the entries given |
| `Pipe.Pipe.Read` | kernel/src/pipe.rs:56-70 | bytes come out in the order written across wrap-around; 0 bytes into a non-empty buffer exactly when empty with every write end closed |
| `Pipe.Pipe.Write` | kernel/src/pipe.rs:75-91 | appends what fits in 16 KiB; `EPIPE` exactly when no read end is left; would block exactly when full |
| `Pipe.Pipe.Close` | kernel/src/pipe.rs:136-145 | closing an end loses no bytes |
| `Pipe.RingPut` | kernel/src/pipe.rs:75-91 | the copy in two pieces around the end of the ring appends to the queue |
| `Pipe.RingTail` | kernel/src/pipe.rs:56-70 | moving the start forward around the end drops the front of the queue |
| `MemMap.Translate` | boot/src/memmap.rs:27-49 | sorted, no two neighbours mergeable, every address in as many regions of each kind as among the descriptors; none exactly when the output is too small; 64-bit ends stay 64-bit |
| `MemMap.Compact` | boot/src/memmap.rs:38-48 | the in-place two-index merge is the fold over the sorted regions |
| `MemMap.SortByStart` | boot/src/memmap.rs:37-37 | a sorted permutation |
| `MemMap.MergedHits` | boot/src/memmap.rs:39-47 | merging keeps how many regions of a kind hold each address |
| `MemMap.MergedOk` | boot/src/memmap.rs:39-47 | merged regions are sorted and no two neighbours can be merged |
| `MemMap.InLoaderMemory` | kernel/src/system.rs:52-66 | on a map sorted by start, true exactly when the range ends within 64 bits and each address of it is in a `Bootloader` region |
| `MemMap.LoaderDescs` | kernel/src/system.rs:50-66 | on a translated map that is exactly an address of a loader descriptor of the firmware |
| `Rtc.UnixCounts` | kernel/src/rtc.rs:80-94 | for every valid time the formula is 86400 times the days counted one by one from 1970-01-01 plus the time of day |
| `Rtc.UnixIncreases` | kernel/src/rtc.rs:80-94 | it is strictly increasing in calendar order |
| `Rtc.DayNumberCounts` | kernel/src/rtc.rs:65-89 | the closed day formula counts days with `is_leap` and `days_in_month` |
| `Rtc.NextDay` | kernel/src/rtc.rs:65-89 | from any day to the next the formula goes up by one, across months, leap days and years |

## Left out

- Device errors above the cache: the ext2 layers work on the cache's content, where reads and writes succeed; what failures do to the cache is in `Cache`.
- `superblock.rs` parsing and the group descriptors' raw bytes: the geometry is taken as the mount's checks leave it (`Geometry.Sane`, `Geometry.Wf`), the counts as numbers.
- Raw inode bytes, timestamps, modes, owners, flags and the htree flag: an inode is its number, kind, size, links, `i_blocks` and fifteen pointers.
- Extended attribute blocks and symlink targets: inodes have no attribute block, and an inode that is neither a file nor a directory owns no blocks.
- Reserved inodes in use: they may own blocks and be read and written, but are not directories and are not named.
- Corrupt images: soundness of the mounted volume is a hypothesis of the ext2 operations (`NameOps.VolumeOk` and its parts), so their "corrupt" errors do not arise there; `Dirent.Parse`, `Dirent.CheckNames`, `FileOps.GetInode`, `Allocator.FindFree`, `Allocator.FreeBlock` and `InodeAlloc.FreeInode` are modelled on any input.
- Directory and bitmap blocks in the ext2 operations are byte sequences replaced whole; `InPlace` shows the same changes made in the buffer.
- `dir_list`, `fs_stat`, `link_target`, `inode_touch`, mount and shutdown: easy beside the rest.
- Elf.Check: which of several faults of one and the same segment is named is modelled but not stated.
- BlockMap.BmapAlloc: covers logical blocks below the largest file, which is what the callers check first; between there and the pointers' reach `i_blocks` could saturate.
- Fresh.Format: builds one volume the invariants hold of; the checks of mount are not modelled.
- Run.RunAll: `ENOSPC` is tied to fewer than four or five free blocks, a size or link limit or no inode number left; the exact count, which depends on the path that is missing, is in `Ops.Make`, `Rename.MoveEntry` and `FileOps.FileWrite`.
- Exec.AddressSpace.MapZeroed: page tables are a set of tables made and a map from page numbers, not entries in memory; 2 MiB pages and cache types belong to the kernel's own mappings.
- `push_key` and the key maps of the console, and the terminal that shows the echo.
- Locks, wake-ups, processes and the descriptor table around pipes, files and the console; operations are modelled one at a time.
- Memory map arithmetic past 64 bits: `MemMap.Translate` works on unbounded numbers and shows that ends within 64 bits stay so.
- The clock's CMOS registers and their decoding; the calendar starts from a decoded date.
- Filesystems other than ext2, the kernel's scheduler, memory manager, drivers, boot code and host tools.
