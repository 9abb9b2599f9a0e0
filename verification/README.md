# A model of composefs

composefs packs a directory tree into an EROFS image that refers to file contents kept elsewhere.  This project models
its core in Dafny and proves properties of it:

* **tree** (`Children`, `HardLinks`, `LevelLists`, `TreeOrder`, `TreeClone`, `NodeAttrs`): nodes with sorted children and
  attributes, hard links, the pass that lists a tree level by level, deep copies;
* **rewriting** (`Escaping`, `Overlay`, `MarkRoom`, `MarkText`, `Rewriting`, `RewrittenTree`): what the writer does to a
  copy of the tree first: attributes escaped and marked, whiteouts turned into files, dots, 256 names in the root;
* **image** (`Planner`, `Layout`, `SharedXattrs`, `NodeXattrs`, `ErofsNode`, `ErofsImage`, `ErofsWriter`, `ImageWriter`
  and the codecs they use): sizes and places first, bytes second, and that the second pass lands where the first said;
* **format** (`ImageFormat`, `AttrFormat`, `TreeFormat`, `NameFilter`, `DumpFormat`): what an image and a dump hold, by
  offset and in characters, stated apart from the functions that write them;
* **loading** (`Superblock`, `Loader`, `NodeReader`, `BodyReader`, `ImageLoads`, `TreeLoader`, `LoadedTree`,
  `TreeComesBack`, `TreeRoundTrip`): reading an image back into a tree;
* **the whole way** (`UserImage`, `AttrReturn`, `PayloadReturn`, `UserRoundTrip`, `WholeTrip`): from the tree of a user to
  an image and back to that tree, in one method;
* **one image per tree** (`NamedTree`, `WrittenTree`): the bytes do not depend on how the tree was put together;
* **hash table** (`HashMemory`, `Buckets`, `HashTable`, `HashWalk`): buckets with overflow cells in one arena, free list,
  rehashing with rollback;
* **fs-verity** (`Merkle`, `FsVerity`): the streaming digest against the Merkle tree;
* **mounted image** (`FuseLookup`, `FuseReaddir`, `MountedDir`): lookup and paged listing of written directories;
* **dump format** (`DumpText`, `DumpLine`): printing and parsing nodes as lines of text;
* **worker threads** (`WorkPool`): the protocol of handing out work, as a state machine.

Classes stand for what the C code updates in place (hash table, digest context, output, loader, cloner, rewriter, tree
pass, attribute list, directory buffer, work iterator); `decreases` clauses replace trust in termination.  Files that need
explaining:  `Plan` in `ErofsImage` is what the layout pass decides; `Planned` says that it was decided as the code does;
`Landed` and `At` say what bytes lie where.  Integers are unbounded except where the width of a field matters, which is
then written out.

An image is smaller than 4 GiB throughout, because block addresses are multiplied by the block size in 32 bits
(`libcomposefs/lcfs-writer-erofs.c`, line 1778); larger images would not be read back.

`dafny verify dfyconfig.toml` checks everything.

## Model

| member | source | states |
|---|---|---|
| `WholeTrip.ThereAndBack` | libcomposefs/lcfs-writer-erofs.c:1385-1505 | a tree of a user is rewritten, laid out, written, opened and loaded in one run: on success every path, every datum and every hard link of the user is back, as `UserAgain` has it, and nothing else; what was written always opens, and with ample memory always loads; each other failure has its reason in the tree: an invalid node, an attribute with the name of a mark, a label that is too long, a link to outside, an image of 4 GiB, too many attributes |
| `WholeTrip.WriteTree` | libcomposefs/lcfs-writer-erofs.c:1385-1505 | the writing half: on success an image of the rewritten tree in which every field is at its offset with its value, as `Formatted` has it: header, superblock, inodes, type codes, name filters, oldest time and ACL flag of the tree; otherwise an error with its reason |
| `WholeTrip.WritePlan` | libcomposefs/lcfs-writer-erofs.c:1456-1505 | the image of a plan; an error if and only if it is too large or an inode has too many attributes |
| `WholeTrip.LoadImage` | libcomposefs/lcfs-writer-erofs.c:1961-2058 | opening any image and loading its tree: not opened, or built as the slots say, or refused |
| `WholeTrip.LoadWritten` | libcomposefs/lcfs-writer-erofs.c:1961-2058 | loading what was written gives the tree of the user; it fails only for want of memory |
| `WholeTrip.LayOut` | libcomposefs/lcfs-writer-erofs.c:1385-1447 | the rewritten tree always meets what the passes behind it need |
| `WholeTrip.RewrittenIsNeat` | libcomposefs/lcfs-writer-erofs.c:1236-1288 | in a rewritten tree only the whiteouts of the root are written as such, and each of them has one name |
| `UserRoundTrip.UserIsBack` | libcomposefs/lcfs-writer-erofs.c:1673-1934 | if the loaded nodes are the rewritten tree then they are the tree of the user: a path leads to a node exactly when it led there, with owner, times, mode, device, content, digest, redirect and attributes as `Reloaded` says, and hard links are kept |
| `UserRoundTrip.SameNames` | libcomposefs/lcfs-writer-erofs.c:1290-1353 | rewriting keeps the paths of the user; what it adds are dots and whiteouts, which are not loaded |
| `UserRoundTrip.AttrsAreBack` | libcomposefs/lcfs-writer-erofs.c:1604-1671 | the loader makes the node of the user again from what was written for it: when it refuses, when the mode is another, which attributes there are, and digest and redirect |
| `UserRoundTrip.LinksAreBack` | libcomposefs/lcfs-writer.c:198-208 | a directory of the user comes back with the number of its subdirectories plus the two dots as link count |
| `UserImage.RewrittenFits` | libcomposefs/lcfs-writer-erofs.c:1366-1383 | a rewritten tree fits the fields of the image |
| `UserImage.StillTree` | libcomposefs/lcfs-writer-erofs.c:1290-1353 | a rewritten tree is a tree |
| `UserImage.LinksStillStop` | libcomposefs/lcfs-writer-erofs.c:1314-1340 | the new links for dots do not make a chain of links endless |
| `UserImage.StillOneEntry` | libcomposefs/lcfs-writer-erofs.c:1236-1353 | every node of a rewritten tree is a child once |
| `RewrittenTree.RewriteTree` | libcomposefs/lcfs-writer-erofs.c:1366-1383 | the whole rewriting: each node below the root has its attributes escaped and marked, its whiteouts turned into files and its dots, nothing else is changed; in characters: the root has `trusted.overlay.opaque` with the value `y` and the names `00` to `ff`, every node has the marks and the escaped names of `AllMarked`, every directory has `.` for itself and `..` for the one above it; it fails only for an invalid node, an attribute with the name of a mark, a long label or want of memory |
| `RewrittenTree.AddHexNodes` | libcomposefs/lcfs-writer-erofs.c:1236-1288 | whiteouts for the names that are missing in the root, with its owner, time and label; the other nodes are untouched |
| `RewrittenTree.MarkRoot` | libcomposefs/lcfs-writer-erofs.c:1355-1364 | the root is marked: its attributes are those from before with the name `trusted.overlay.opaque` set to `y`; refused only if there is an attribute with the name of a mark or, when memory is not ample, for want of it |
| `RewrittenTree.MakeHex` | libcomposefs/lcfs-writer-erofs.c:1257-1278 | one such whiteout |
| `RewrittenTree.LabelIsUsers` | libcomposefs/lcfs-writer-erofs.c:1243-1243 | the label found on the rewritten root is the one the user gave it |
| `RewrittenTree.DotsFound` | libcomposefs/lcfs-writer-erofs.c:1309-1334 | every directory has an entry `.` that leads to itself and an entry `..` that leads to the directory above, the root to itself |
| `RewrittenTree.MarksFound` | libcomposefs/lcfs-writer-erofs.c:1135-1231 | every node of the user ends with exactly the marks and the escaped names of `AttrsWritten` |
| `RewrittenTree.HexesFound` | libcomposefs/lcfs-writer-erofs.c:1246-1256 | the names that are added are the 256 of two lower-case hexadecimal digits |
| `Rewriting.Rewriter.RewriteNode` | libcomposefs/lcfs-writer-erofs.c:1290-1353 | the recursion: everything below a node is done, everything else is as it was; ends because each node is done once |
| `Rewriting.Rewriter.RewriteChildren` | libcomposefs/lcfs-writer-erofs.c:1337-1349 | the loop over the children, links passed over |
| `Rewriting.Rewriter.Next` | libcomposefs/lcfs-writer-erofs.c:1338-1348 | one child |
| `Rewriting.Rewriter.RewriteOwn` | libcomposefs/lcfs-writer-erofs.c:1296-1304 | one node is validated, escaped and marked |
| `Rewriting.Rewriter.Tell` | libcomposefs/lcfs-writer-erofs.c:1210-1231 | a whiteout marks the directory it is in, the same way however many there are |
| `Rewriting.Rewriter.TellParent` | libcomposefs/lcfs-writer-erofs.c:1210-1231 | the marking of the directory |
| `Rewriting.Rewriter.AddDot` | libcomposefs/lcfs-writer-erofs.c:1309-1334 | an entry for the directory or its parent, unless there is one |
| `Rewriting.Rewriter.AddNewDot` | libcomposefs/lcfs-writer-erofs.c:1314-1331 | one new entry in the sorted list, leading to a link node, and one more link of its target |
| `Rewriting.MarkNode` | libcomposefs/lcfs-writer-erofs.c:1135-1207 | escaping and marking one node: called invalid if and only if it is; otherwise refused only for want of memory or an attribute with the name of a mark |
| `Rewriting.ValidMeans` | libcomposefs/lcfs-writer.c:1200-1225 | which nodes are valid, in numbers: one of the seven types, and an external file of at most 2^53 bytes or of more than 2^64 - 2^43 |
| `Overlay.EscapeIn` | libcomposefs/lcfs-writer-erofs.c:1140-1158 | escaping all names keeps the attributes apart and leaves the counter alone |
| `Overlay.SetAll` | libcomposefs/lcfs-writer-erofs.c:1160-1230 | marks set one after the other; with room for them none is refused, unless memory is short |
| `Overlay.RoomForOne` | libcomposefs/lcfs-writer.c:1688-1750 | a mark that is not there with another value is taken, and leaves room for the next |
| `MarkRoom.WrittenRoom` | libcomposefs/lcfs-writer-erofs.c:1210-1231 | a directory has room for its marks however often it is marked, unless the user gave an attribute the name of one |
| `MarkRoom.OwnRoom` | libcomposefs/lcfs-writer-erofs.c:1160-1207 | so has a node for its own marks |
| `MarkText.OwnMarksAre` | libcomposefs/lcfs-writer-erofs.c:1160-1207 | the marks of a file and of a whiteout as text and bytes: `trusted.overlay.metacopy` with 0, 36, 0, 1 and the digest or nothing, `trusted.overlay.redirect` with a slash and the payload, `trusted.overlay.overlay.whiteout` and `user.overlay.whiteout` without a value |
| `MarkText.DirMarksAre` | libcomposefs/lcfs-writer-erofs.c:1210-1231 | those of a directory with a whiteout: `whiteouts` and, from version 1 on, `opaque` with the value `x`, each under `trusted.overlay.overlay.` and `user.overlay.` |
| `MarkText.RootMarkIs` | libcomposefs/lcfs-writer-erofs.c:1355-1364 | that of the root: `trusted.overlay.opaque` with the value `y` |
| `MarkText.WrittenOut` | libcomposefs/lcfs-writer-erofs.c:1135-1231 | a node has an attribute in the image if and only if it is a mark, or one the user gave, escaped, under a name that no mark has |
| `MarkText.ReturnedAre` | libcomposefs/lcfs-writer-erofs.c:1604-1671 | and has one after loading if and only if it was given and its name is not one of the reserved ones, or it is the opaque mark of a directory with a whiteout |
| `Overlay.AbsorbXattrs` | libcomposefs/lcfs-writer-erofs.c:1604-1671 | the attributes of a node as the loader takes them, one after the other |
| `Overlay.AbsorbMeans` | libcomposefs/lcfs-writer-erofs.c:1604-1671 | what that comes to for any list: refused if and only if the setter has no room for those that are kept |
| `AttrReturn.WrittenReturns` | libcomposefs/lcfs-writer-erofs.c:1604-1671 | what the loader keeps of what was written: the attributes of the user but for reserved names, and the opaque marks of a directory with a whiteout |
| `AttrReturn.ReturnedExactly` | libcomposefs/lcfs-writer-erofs.c:1604-1671 | the attributes are back if and only if none has a reserved name and no mark shows |
| `AttrReturn.WhiteoutReturns` | libcomposefs/lcfs-writer-erofs.c:1640-1647 | a node comes back as a whiteout if and only if it was one, or was a file with the name that stands for one |
| `AttrReturn.ExtraReturns` | libcomposefs/lcfs-writer-erofs.c:1618-1638 | digest and redirect of a file come back as they were stored |
| `PayloadReturn.PayloadReturns` | libcomposefs/lcfs-writer-erofs.c:1618-1631 | in any written image, the payload of a redirect that an inode has to itself comes back if and only if its length is not 3 modulo 4, or the next name has no suffix |
| `PayloadReturn.PayloadExact` | libcomposefs/lcfs-writer-erofs.c:1618-1631 | a payload comes back if and only if a zero byte follows its attribute |
| `TreeRoundTrip.ThereAndBack` | libcomposefs/lcfs-writer-erofs.c:1961-2058 | a tree, its image and the tree loaded from it: the image loads; whatever the loader builds has exactly the paths of the written tree, at each the same mode, owner, times, link count, device, content and attributes (unless one is bare and last), and two paths end at one node exactly when they did before; for a tree with sorted children, one parent each and no link to a whiteout, loading can fail only for want of memory |
| `TreeRoundTrip.TreeReturns` | libcomposefs/lcfs-writer-erofs.c:1673-1934 | a path of names leads from the root to a node exactly when it leads to the node loaded from its inode |
| `TreeRoundTrip.LinksReturn` | libcomposefs/lcfs-writer-erofs.c:1704-1708 | hard links survive: two paths end at one loaded node exactly when they ended at one node |
| `TreeRoundTrip.TypesKept` | libcomposefs/lcfs-writer-erofs.c:736-737 | the type code of every loaded directory entry is the one of the node that it leads to |
| `TreeRoundTrip.ShowsType` | tools/cfs-fuse.c:358-378 | and the mode that a listing shows for it has the type bits of that node |
| `TreeRoundTrip.NeatIsTidy` | libcomposefs/lcfs-writer-erofs.c:1541-1602 | a tree with sorted children, one parent each and no link to a whiteout is written without anything the loader stumbles over |
| `TreeComesBack.LoadingSucceeds` | libcomposefs/lcfs-writer-erofs.c:1961-2058 | the superblock of a written image is accepted and the loader meets no unreadable slot, no repeated name and no second way to a whiteout |
| `TreeComesBack.WrittenReadsPlan` | libcomposefs/lcfs-writer-erofs.c:1673-1934 | every slot of a written image reads as the inode that was planned there |
| `TreeComesBack.PathsAreBack` | libcomposefs/lcfs-writer-erofs.c:1541-1602 | paths of the plan and paths of the loaded tree are the same |
| `TreeComesBack.DataIsBack` | libcomposefs/lcfs-writer-erofs.c:1724-1931 | a node loaded from the slot of an inode holds its fields, content and attributes |
| `LoadedTree.PathsAgree` | libcomposefs/lcfs-writer-erofs.c:1573-1593 | a path of names leads to a slot of the image exactly when it leads to the node built from that slot, links resolved, dots and whiteouts skipped |
| `LoadedTree.SameInodeSameNode` | libcomposefs/lcfs-writer-erofs.c:1704-1722 | two paths end at one loaded node exactly when they name one inode |
| `TreeLoader.LoadTree` | libcomposefs/lcfs-writer-erofs.c:1673-1934 | on success the nodes are a faithful copy of what the slots say, each slot once and links for its other names; on an image whose slots can be read the only failures are a whiteout with a second name and, when memory is not ample, the lack of it |
| `LoadedTree.LoadedHasOneName` | libcomposefs/lcfs-writer-erofs.c:1704-1722 | loading succeeds only if every whiteout has one name |
| `LoadedTree.WhiteoutNamedOnce` | libcomposefs/lcfs-writer-erofs.c:1704-1722 | no two entries of a loaded tree lead to one whiteout |
| `TreeLoader.Loader.Build` | libcomposefs/lcfs-writer-erofs.c:1673-1722 | the recursion: one node for a slot met for the first time, a link for a slot met before, nothing for a whiteout; ends because every slot is built once |
| `TreeLoader.Loader.BuildNew` | libcomposefs/lcfs-writer-erofs.c:1710-1722 | the same for a slot met for the first time |
| `TreeLoader.Loader.Fill` | libcomposefs/lcfs-writer-erofs.c:1784-1806 | the children of a directory are its entries but for dots and whiteouts, in order |
| `TreeLoader.Loader.Next` | libcomposefs/lcfs-writer-erofs.c:1541-1602 | one directory entry: skipped, or built and added under its name |
| `TreeLoader.Loader.Descend` | libcomposefs/lcfs-writer-erofs.c:1541-1602 | what one entry leads to is built behind everything built so far |
| `TreeLoader.Loader.Attach` | libcomposefs/lcfs-writer-erofs.c:1541-1602 | adding the child keeps the children of earlier nodes |
| `TreeLoader.Loader.LinkTo` | libcomposefs/lcfs-writer-erofs.c:1704-1708 | a slot met before becomes a hard link to its node |
| `TreeLoader.Loader.Begin` | libcomposefs/lcfs-writer-erofs.c:1710-1722 | a new node is recorded under its slot before its children are read |
| `TreeLoader.Loader.GiveUp` | libcomposefs/lcfs-writer-erofs.c:1768-1771 | a whiteout leaves no node but its slot counts as met |
| `TreeLoader.NotGone` | libcomposefs/lcfs-writer-erofs.c:1704-1722 | when whiteouts have one name each, no entry leads to a whiteout already given up |
| `ImageLoads.WrittenReads` | libcomposefs/lcfs-writer-erofs.c:1961-2058 | the written image loads, its root slot is found, and reading any slot gives stat and content back, and the attributes exactly when none is bare and last |
| `ImageLoads.TotalFits` | libcomposefs/lcfs-writer-erofs.c:281-288 | attributes within the setter limit never overflow the count in the inode |
| `ErofsImage.ImageRoundTrip` | libcomposefs/lcfs-writer-erofs.c:1673-1934 | reading slot i of an image gives inode i: stat, content, stored attributes |
| `ErofsImage.PlanLands` | libcomposefs/lcfs-writer-erofs.c:1456-1505 | every inode, tail, shared attribute and data block lies where the layout pass said, and the image has the predicted size |
| `ErofsImage.PlanFills` | libcomposefs/lcfs-writer-erofs.c:822-1061 | what is written for each inode has the sizes that the layout reserved |
| `ImageWriter.WriteImage` | libcomposefs/lcfs-writer-erofs.c:1385-1505 | the writing passes emit exactly the specified image, byte for byte and with the predicted size; every slot holds its inode, attributes, directory entries and chunk indexes at their offsets, and what belongs to nothing is zero; they fail exactly when an inode has more attributes than its count can say |
| `ImageFormat.ImageConforms` | libcomposefs/lcfs-writer-erofs.c:1385-1505 | the whole image by offset, in numbers: header, superblock, every slot, zeros in between |
| `ImageFormat.ImageStart` | libcomposefs/lcfs-writer-erofs.c:1389-1466 | magic numbers, version and flags, features 6, block size bits 12, root slot, number of inodes at 1040, oldest time, number of blocks at 1060, attribute block, zeros in all other bytes |
| `ImageFormat.ImageSlot` | libcomposefs/lcfs-writer-erofs.c:822-1043 | one inode with what follows it |
| `ImageFormat.FieldsHold` | libcomposefs/lcfs-writer-erofs.c:862-969 | mode, links, size, owner, number, times, layout, and the word that is a block, a device or a chunk format |
| `ImageFormat.ChunkBitsIs` | libcomposefs/lcfs-writer-erofs.c:472-499 | the chunk format: the smallest power of two from 2^12 to 2^43 that holds the file |
| `ImageFormat.ChunksStand` | libcomposefs/lcfs-writer-erofs.c:811-820 | an external file has as many chunk indexes as it needs, all ones |
| `ImageFormat.DirectoryHolds` | libcomposefs/lcfs-writer-erofs.c:719-755 | entries with the names, slots and type codes of the children |
| `ImageFormat.AttributesHold` | libcomposefs/lcfs-writer-erofs.c:971-1008 | the header of the attribute area: its size in the inode, the filter, the number of references |
| `ImageFormat.ImageGaps` | libcomposefs/lcfs-writer.c:322-344 | alignment is filled with zeros |
| `AttrFormat.ItemsStand` | libcomposefs/lcfs-writer-erofs.c:984-1006 | each reference, taken times 4 from the block in which the table starts, is the offset of its attribute; the attributes of the inode itself follow one another |
| `AttrFormat.EntryStands` | libcomposefs/lcfs-writer-erofs.c:693-717 | an attribute entry by offset: lengths, prefix number, name, value, zeros |
| `TreeFormat.PlanFormatted` | libcomposefs/lcfs-writer-erofs.c:1428-1447 | for a tree the header has the flag for ACLs if and only if some node has one, the superblock the oldest time, and each inode the filter of its attributes |
| `NameFilter.FilterMeans` | libcomposefs/lcfs-writer-erofs.c:561-579 | a bit of the filter is set if and only if no attribute has it as the hash of its suffix, seeded with 0x25BBE08F plus the number of its prefix, modulo 32 |
| `NameFilter.NeverHides` | libcomposefs/lcfs-writer-erofs.c:561-579 | the bit of the name of an attribute of the node is never set, so a lookup by filter misses nothing |
| `NameFilter.ComputeFilter` | libcomposefs/lcfs-writer-erofs.c:561-579 | the loop over the attributes |
| `Superblock.PrefixDescribes` | libcomposefs/lcfs-writer-erofs.c:1389-1466 | the fields that the loader does not read |
| `ImageWriter.WriteInodes` | libcomposefs/lcfs-writer-erofs.c:1045-1061 | all inodes with their padding; block addresses handed out end at the end of the image |
| `ImageWriter.WriteInodeData` | libcomposefs/lcfs-writer-erofs.c:822-1043 | one inode: padding, fields, attributes, tail, ending where the next begins |
| `ImageWriter.WriteInode` | libcomposefs/lcfs-writer-erofs.c:862-969 | the compact or extended inode |
| `ImageWriter.WriteTail` | libcomposefs/lcfs-writer-erofs.c:1010-1035 | the tail of a directory, link target, content or chunk table |
| `ImageWriter.WriteNullChunks` | libcomposefs/lcfs-writer-erofs.c:811-820 | n null chunk addresses |
| `ImageWriter.WriteFileContent` | libcomposefs/lcfs-writer-erofs.c:1064-1101 | the block of a file or of a long link target; the loop returns after its first block |
| `ImageWriter.WriteDataBlocks` | libcomposefs/lcfs-writer-erofs.c:1103-1118 | all data blocks, in the order of the inodes |
| `ImageWriter.WriteSharedXattrs` | libcomposefs/lcfs-writer-erofs.c:1120-1133 | the table of shared attributes |
| `ErofsWriter.Writer.WriteDentries` | libcomposefs/lcfs-writer-erofs.c:757-807 | cutting entries into blocks again while writing yields the blocks and the tail of the sizing pass |
| `ErofsWriter.Writer.WriteChunk` | libcomposefs/lcfs-writer-erofs.c:719-755 | dirents, then names, then padding |
| `ErofsWriter.Writer.WriteArea` | libcomposefs/lcfs-writer-erofs.c:971-1008 | the attribute area, of the size that was reserved |
| `ErofsWriter.Writer.WriteXattr` | libcomposefs/lcfs-writer-erofs.c:693-717 | one attribute entry, padded to four bytes |
| `ErofsWriter.Writer.Write` | libcomposefs/lcfs-writer.c:299-320 | appends to the output |
| `ErofsWriter.Writer.WritePad` | libcomposefs/lcfs-writer.c:322-335 | appends n zeros, in pieces of 256 |
| `ErofsWriter.Writer.WriteAlign` | libcomposefs/lcfs-writer.c:337-344 | zeros up to the next multiple |
| `DirWriting.WalkMeans` | libcomposefs/lcfs-writer-erofs.c:757-807 | the state of the writing walk determines the blocks and the tail |
| `Planner.MakePlan` | libcomposefs/lcfs-writer-erofs.c:1385-1447 | all decisions before writing: shared table, offsets, sizes, places, addresses |
| `Planner.PlanUnique` | libcomposefs/lcfs-writer-erofs.c:1385-1447 | inodes, time stamp and filters determine the plan |
| `Planner.SizeOne` | libcomposefs/lcfs-writer-erofs.c:501-539 | compact or not, blocks, tail, attribute area |
| `WrittenTree.CanonicalImage` | libcomposefs/lcfs-writer-erofs.c:1385-1505 | trees that differ only in the order of construction and the numbering of nodes get the same plan and the same image, byte for byte |
| `WrittenTree.PlanTree` | libcomposefs/lcfs-writer-erofs.c:1385-1447 | a tree gets a plan exactly when it is acceptable: list, inodes, plan |
| `WrittenTree.SortAttributes` | libcomposefs/lcfs-writer.c:165-171 | attributes in the order of their names, none lost |
| `WrittenTree.ListInodes` | libcomposefs/lcfs-writer-erofs.c:1045-1061 | walking the list gives the inodes in order, entries resolved through links |
| `NamedTree.SameList` | libcomposefs/lcfs-writer.c:176-282 | renumbering a tree renumbers its list |
| `NamedTree.SameInodes` | libcomposefs/lcfs-writer.c:176-282 | renumbered trees have the same inodes |
| `NamedTree.SameGathered` | libcomposefs/lcfs-writer.c:225-239 | and the same oldest time and ACL flag |
| `Layout.ComputeInodes` | libcomposefs/lcfs-writer-erofs.c:635-691 | the layout pass: places, block count and end |
| `Layout.PlaceInode` | libcomposefs/lcfs-writer-erofs.c:635-691 | one inode: a slot, a tail that crosses no block |
| `Layout.PaddingWorks` | libcomposefs/lcfs-writer-erofs.c:581-633 | the padding chosen keeps the tail inside one block and the inode in a slot |
| `Layout.LeastPadding` | libcomposefs/lcfs-writer-erofs.c:581-633 | of everything but a symbolic link the tail stays behind the inode exactly when some padding lets it fit into a block, and then the padding is the least that does; otherwise the inode starts a block |
| `Layout.PlacesLaid` | libcomposefs/lcfs-writer-erofs.c:635-691 | the places follow one another and none overlaps |
| `Layout.PlacesIncrease` | libcomposefs/lcfs-writer-erofs.c:635-691 | an inode starts behind the end of every earlier one |
| `Layout.RootSlot` | libcomposefs/lcfs-writer-erofs.c:1450-1451 | the root always has a slot number that fits in 16 bits (at most 163) |
| `ImageLayout.ImageLands` | libcomposefs/lcfs-writer-erofs.c:1385-1505 | parts of the right sizes, put one behind the other, land at the places of the layout |
| `ErofsNode.ComputeBodySize` | libcomposefs/lcfs-writer-erofs.c:501-539 | blocks and tail of each kind of content, in numbers for contents and targets; tails of directories and contents are at most half a block |
| `ErofsNode.BodyFills` | libcomposefs/lcfs-writer-erofs.c:1010-1101 | tail and data have exactly the planned sizes |
| `ErofsNode.DirentTypeIs` | libcomposefs/lcfs-writer-erofs.c:179-199 | the seven type codes as numbers, by the type bits of the mode |
| `NodeReader.NodeRoundTrip` | libcomposefs/lcfs-writer-erofs.c:1673-1934 | an inode read from where it landed gives stat, content and attributes; only a whiteout is reported as one |
| `BodyReader.BodyRoundTrip` | libcomposefs/lcfs-writer-erofs.c:1773-1868 | directory, link target, inline content and external files read back |
| `NodeReader.InodeReads` | libcomposefs/lcfs-writer-erofs.c:1724-1766 | the bytes of an inode, compact or extended, decode to its fields |
| `InodeCodec.CompactFields` | libcomposefs/lcfs-writer-erofs.c:893-930 | where the fields of a compact inode are |
| `InodeCodec.ExtendedFields` | libcomposefs/lcfs-writer-erofs.c:931-969 | where those of an extended one are |
| `Superblock.LoadDecides` | libcomposefs/lcfs-writer-erofs.c:1961-2040 | an image with the right header is accepted exactly when the shared attribute area lies inside it |
| `Superblock.LoadMeans` | libcomposefs/lcfs-writer-erofs.c:1961-2040 | for any bytes: which images are opened, and which are refused as of another version |
| `Loader.LoadWritten` | libcomposefs/lcfs-writer-erofs.c:1961-2058 | a written image loads exactly when something lies behind its inodes |
| `Whiteouts.WrittenLoads` | libcomposefs/lcfs-writer-erofs.c:1236-1288 | with the 256 names the writer adds to the root, every written image loads |
| `Whiteouts.RootHasBlock` | libcomposefs/lcfs-writer-erofs.c:447-470 | such a root has a block of its own |
| `DirBlocks.DirRoundTrip` | libcomposefs/lcfs-writer-erofs.c:1784-1806 | a directory written as blocks and tail reads back as the same entries |
| `DirBlocks.ComputeDirSize` | libcomposefs/lcfs-writer-erofs.c:447-470 | blocks and tail of the greedy cut; a last piece over half a block becomes a block |
| `DirBlocks.StartsCut` | libcomposefs/lcfs-writer-erofs.c:447-470 | the greedy cut splits no entry and overfills no block |
| `DirBlocks.StartsIsCut` | libcomposefs/lcfs-writer-erofs.c:447-470 | and no block of it has room for the entry that starts the next |
| `DirBlocks.CutUnique` | libcomposefs/lcfs-writer-erofs.c:757-807 | there is only one such cut, so sizing and writing agree |
| `DirBlocks.DirSizeMeans` | libcomposefs/lcfs-writer-erofs.c:447-470 | blocks and tail by that cut: a last piece of more than 2048 bytes is a block, any other is the tail |
| `DirBlocks.DirDataSizes` | libcomposefs/lcfs-writer-erofs.c:757-807 | the written data has the computed sizes |
| `DirBlocks.ReadDir` | libcomposefs/lcfs-writer-erofs.c:1784-1806 | reading block by block, then the tail |
| `DirBlocks.DecodeBlockInverts` | libcomposefs/lcfs-writer-erofs.c:1541-1572 | the block decoder inverts the chunk encoder, padded or not |
| `DirCodec.BlockRoundTrip` | libcomposefs/lcfs-writer-erofs.c:1541-1602 | entries of a block read back, the last name ending at the zero padding or the end |
| `DirCodec.DirentFields` | libcomposefs/lcfs-writer-erofs.c:719-755 | the fields of a directory entry by offset |
| `DirCodec.ReadBlock` | libcomposefs/lcfs-writer-erofs.c:1541-1602 | the loop over a block, with its checks |
| `DirCodec.BlockMeans` | libcomposefs/lcfs-writer-erofs.c:1541-1602 | for any bytes: which blocks are taken, and that each entry read is the one that the offsets in the block lead to |
| `SharedXattrs.ComputeShared` | libcomposefs/lcfs-writer-erofs.c:311-416 | exactly the attributes used more than once are shared, in the canonical order, at the offsets where they will be written |
| `SharedXattrs.TableUnique` | libcomposefs/lcfs-writer-erofs.c:355-362 | the table does not depend on hashing or on the order of nodes |
| `SharedXattrs.CountUses` | libcomposefs/lcfs-writer-erofs.c:331-353 | how often each attribute is used |
| `SharedXattrs.SortCounted` | libcomposefs/lcfs-writer-erofs.c:355-362 | sorted by the comparator, same elements |
| `SharedXattrs.OffsetsWritten` | libcomposefs/lcfs-writer-erofs.c:370-385 | an offset is the number of bytes written before the entry |
| `SharedXattrs.BeforeIsOrder` | libcomposefs/lcfs-writer-erofs.c:232-246 | the comparator is a strict total order |
| `SharedXattrs.BeforeMeans` | libcomposefs/lcfs-writer-erofs.c:232-246 | it compares the names, then the values, byte by byte |
| `Order.LessMeans` | libcomposefs/lcfs-writer-erofs.c:232-246 | one byte string is before another if and only if it is a proper prefix or has the smaller byte where they first differ |
| `NodeXattrs.AssignOffsets` | libcomposefs/lcfs-writer-erofs.c:387-405 | a node refers to the shared entry of an attribute, for the first 128 of them |
| `NodeXattrs.AssignedMeans` | libcomposefs/lcfs-writer-erofs.c:387-405 | an attribute refers to the table if and only if it is there and fewer than 128 before it do |
| `NodeXattrs.KindsPartition` | libcomposefs/lcfs-writer-erofs.c:541-559 | shared and unshared attributes together are the attributes |
| `NodeXattrs.ComputeCounts` | libcomposefs/lcfs-writer-erofs.c:541-559 | number of references and size of the rest |
| `NodeXattrs.RefsLead` | libcomposefs/lcfs-writer-erofs.c:984-994 | each reference, relative to the table base, leads to its attribute |
| `NodeXattrs.AreaOfReads` | libcomposefs/lcfs-writer-erofs.c:1870-1931 | the area of a node decodes to its attributes, but for a bare last one |
| `XattrArea.AreaRoundTrip` | libcomposefs/lcfs-writer-erofs.c:1870-1931 | inline entries and shared references decode |
| `XattrArea.IcountRoundTrip` | libcomposefs/lcfs-writer-erofs.c:281-300 | the word count in the inode gives the size of the area back |
| `XattrArea.ReadArea` | libcomposefs/lcfs-writer-erofs.c:1870-1931 | the reading loops |
| `Xattrs.FetchStore` | libcomposefs/lcfs-erofs-internal.h:100-125 | prefix index and suffix determine the name |
| `Xattrs.StoredAs` | libcomposefs/lcfs-erofs-internal.h:100-125 | the five prefixes as text with their numbers |
| `Xattrs.StoredWhole` | libcomposefs/lcfs-erofs-internal.h:100-125 | any other name is stored whole, with number 0 |
| `Xattrs.EntryRoundTrip` | libcomposefs/lcfs-writer-erofs.c:1604-1671 | one attribute entry decodes |
| `Xattrs.ReadInline` | libcomposefs/lcfs-writer-erofs.c:1886-1908 | the loop over inline entries; it stops when only a header is left |
| `XattrExact.AttributesExact` | libcomposefs/lcfs-writer-erofs.c:1886-1931 | the attributes come back, as a multiset, exactly when the last one kept with the inode is not bare |
| `XattrRoom.TotalCoversArea` | libcomposefs/lcfs-writer.c:1688-1750 | the total the setter accounts for covers the area that is written |
| `XattrRoom.EscapedTotal` | libcomposefs/lcfs-writer-erofs.c:1135-1158 | escaping names at most doubles the charges, so attributes within the outer limit still fit |
| `Escaping.EscapeAll` | libcomposefs/lcfs-writer-erofs.c:1140-1158 | renaming in place escapes every name and keeps names distinct |
| `Escaping.EscapeInjective` | libcomposefs/lcfs-writer-erofs.c:1152-1155 | no two names fall together |
| `Escaping.NameRoundTrip` | libcomposefs/lcfs-writer-erofs.c:1604-1671 | a name escaped by the writer comes back from the loader exactly when it is not one of the reserved ones |
| `Escaping.StoredSuffix` | libcomposefs/lcfs-writer-erofs.c:248-269 | an escaped name of at most 255 bytes still has a suffix of at most 255 |
| `NodeAttrs.Attrs.Set` | libcomposefs/lcfs-writer.c:1688-1750 | setting an attribute, also on a copied node, whose counter starts at zero and wraps: which of the refusals applies, and the list afterwards |
| `NodeAttrs.TotalIs` | libcomposefs/lcfs-writer.c:1688-1750 | what an attribute counts and what the limits are, in numbers |
| `NodeAttrs.SetMeans` | libcomposefs/lcfs-writer.c:1688-1750 | which of the three refusals it is, in numbers |
| `NodeAttrs.SetIn` | libcomposefs/lcfs-writer.c:1688-1750 | the same on values |
| `NodeAttrs.RefusalKeeps` | libcomposefs/lcfs-writer.c:1688-1750 | a refused value leaves the list alone if and only if its name or size is bad or there was none to replace |
| `NodeAttrs.CopyShrinks` | libcomposefs/lcfs-writer.c:1362-1416 | an attribute of a copied node can be replaced if and only if the new value is not shorter, nor longer by more than the limit |
| `NodeAttrs.Attrs.Unset` | libcomposefs/lcfs-writer.c:1659-1683 | removing by swapping with the last removes just that name |
| `NodeAttrs.Attrs.Find` | libcomposefs/lcfs-writer.c:1633-1642 | the position of a name |
| `NodeAttrs.OrderCanonical` | libcomposefs/lcfs-writer.c:165-171 | the sorted list depends only on which attributes are set |
| `Chunking.ChunkLimit` | libcomposefs/lcfs-writer-erofs.c:472-499 | for which sizes the chunk table of an external file fits |
| `TreeOrder.ComputeTree` | libcomposefs/lcfs-writer.c:176-282 | the pass accepts exactly the acceptable trees and leaves the level-order list, chained, with consecutive numbers; the link count of every listed directory is 2 plus the number of its children that are directories, the time is the oldest of the list, the ACL flag is set if and only if a listed node has an ACL |
| `TreeOrder.Pass.List` | libcomposefs/lcfs-writer.c:176-256 | the first round |
| `TreeOrder.Pass.Visit` | libcomposefs/lcfs-writer.c:190-256 | everything done at one node |
| `TreeOrder.Pass.Check` | libcomposefs/lcfs-writer.c:191-218 | the link count of a directory becomes 2 plus the number of the set of positions of children that are directories, no other link count changes; which nodes are refused |
| `TreeOrder.DirectoriesAre` | libcomposefs/lcfs-writer.c:198-208 | the count is the size of the set of positions of directories |
| `TreeOrder.OwnPicks` | libcomposefs/lcfs-writer.c:241-256 | the children that are put on the list are those that are no links, in their order |
| `TreeOrder.Pass.CheckLinks` | libcomposefs/lcfs-writer.c:258-272 | every hard link ends at a node of the list |
| `TreeOrder.Pass.Unmark` | libcomposefs/lcfs-writer.c:274-277 | no mark is left behind |
| `TreeOrder.RefusedMeans` | libcomposefs/lcfs-writer.c:191-218 | a tree refused half way is refused for a node of its finished list |
| `TreeOrder.OnlyRootIsLink` | libcomposefs/lcfs-writer.c:212-256 | only the root can be a link among the listed nodes |
| `TreeOrder.DirectoryLinkFound` | libcomposefs/lcfs-writer.c:212-218 | the test for links to directories trips exactly when the root is such a link |
| `LevelLists.LevelOrder` | libcomposefs/lcfs-writer.c:241-256 | the list is the levels of the tree, one after the other |
| `LevelLists.AllReached` | libcomposefs/lcfs-writer.c:241-256 | whatever can be reached from the root is listed |
| `LevelLists.ListNoDup` | libcomposefs/lcfs-writer.c:241-256 | no node is listed twice |
| `LevelLists.ListUnique` | libcomposefs/lcfs-writer.c:241-256 | children determine the list |
| `HardLinks.FollowLinks` | libcomposefs/lcfs-writer.c:285-297 | the end of a chain of links, or none |
| `HardLinks.HaltsWhen` | libcomposefs/lcfs-writer.c:285-297 | following links ends exactly when the chain does not run into a cycle that misses its start |
| `Children.AddTo` | libcomposefs/lcfs-writer.c:1230-1300 | each of the refusals if and only if its reason holds, then nothing is changed; otherwise one more child, still sorted without duplicates |
| `Children.BSearch` | libcomposefs/lcfs-writer.c:1123-1164 | the child, or the place where it belongs |
| `Children.ChildrenCanonical` | libcomposefs/lcfs-writer.c:1230-1300 | any order of additions gives the same list |
| `TreeClone.Cloner.CloneDeep` | libcomposefs/lcfs-writer.c:1429-1500 | the copy is isomorphic to the tree below the node: data, names in order, a link to something copied leads to its first clone, any other link is kept, the first clone has no name; the source is untouched; with ample memory it always succeeds |
| `TreeClone.Cloner.CopyTree` | libcomposefs/lcfs-writer.c:1429-1466 | the recursive copy, with its mapping |
| `TreeClone.Cloner.RewriteLinks` | libcomposefs/lcfs-writer.c:1469-1486 | links are redirected through the mapping |
| `TreeClone.Cloner.Clone` | libcomposefs/lcfs-writer.c:1362-1416 | one node without name and children |
| `TreeClone.ClonedExactly` | libcomposefs/lcfs-writer.c:1429-1466 | exactly what is below the root was copied |
| `TreeClone.ClonedOnce` | libcomposefs/lcfs-writer.c:1429-1486 | in a tree every node has one clone |
| `HashTable.Rehash` | libcomposefs/hash.c:846-922 | rehashing keeps every entry whether it succeeds or is undone, and succeeds with ample memory for any size but 0; the call of abort is unreachable |
| `HashTable.Rollback` | libcomposefs/hash.c:902-921 | moving everything back never needs a cell that is not there |
| `HashTable.TransferEntries` | libcomposefs/hash.c:771-843 | entries and cells of both tables together are conserved; only moving a head can fail |
| `HashTable.InsertIfAbsent` | libcomposefs/hash.c:925-1004 | inserted, refused because of a match, or out of memory: the entries afterwards in each case; with ample memory an entry without a match is inserted |
| `HashTable.Remove` | libcomposefs/hash.c:1017-1074 | just the match is removed and returned |
| `HashTable.Table.Lookup` | libcomposefs/hash.c:243-256 | a match if there is one |
| `HashTable.Table.FindEntry` | libcomposefs/hash.c:701-762 | the first match of its bucket, unlinked if asked for |
| `HashTable.Table.DeleteAt` | libcomposefs/hash.c:701-762 | unlinking a head, a cell or a lone head |
| `HashTable.Table.AllocateEntry` | libcomposefs/hash.c:662-681 | a recycled cell before a new one |
| `HashTable.Table.FreeEntry` | libcomposefs/hash.c:687-692 | the cell goes onto the free list |
| `HashTable.Table.Clear` | libcomposefs/hash.c:569-604 | empty, and no cell is lost |
| `HashTable.Table.constructor` | libcomposefs/hash.c:514-566 | an empty table |
| `HashTable.AbsentMeansAbsent` | libcomposefs/hash.c:701-762 | no match in its bucket means no match in the table |
| `HashWalk.TableOk` | libcomposefs/hash.c:186-212 | the statistics agree with the buckets; they always do on a valid table |
| `HashWalk.GetEntries` | libcomposefs/hash.c:301-322 | the first entries in walking order |
| `HashWalk.GetFirst` | libcomposefs/hash.c:261-273 | the first entry in walking order |
| `HashWalk.GetNext` | libcomposefs/hash.c:276-298 | the entry after the given one |
| `HashWalk.WalkAll` | libcomposefs/hash.c:261-298 | first and next visit the whole table |
| `HashWalk.WalkIsExact` | libcomposefs/hash.c:261-322 | every entry once |
| `FsVerity.DigestOf` | libcomposefs/lcfs-fsverity.c:372-448 | the streaming computation, fed in any pieces, succeeds exactly up to 2^61 bytes and gives the hash of the descriptor of the file: version, SHA-256, 4096-byte blocks, the number of bytes fed at offset 8, the Merkle root at offset 16, zeros; for a file that is not empty this is the fs-verity digest |
| `FsVerity.FsVerityContext.Update` | libcomposefs/lcfs-fsverity.c:404-408 | appends to the file, exactly while the eight levels suffice |
| `FsVerity.FsVerityContext.UpdateLevel` | libcomposefs/lcfs-fsverity.c:372-402 | a full block is hashed upwards only when more data follows |
| `FsVerity.FsVerityContext.FlushLevel` | libcomposefs/lcfs-fsverity.c:410-428 | the final flush leaves the block whose hash is the Merkle root |
| `FsVerity.FsVerityContext.GetDigest` | libcomposefs/lcfs-fsverity.c:430-448 | the hash of the descriptor with the Merkle root and the size of everything that was fed |
| `Merkle.DescriptorFields` | libcomposefs/lcfs-fsverity.c:438-443 | the fields of the descriptor by offset, for every root and size |
| `Merkle.DescriptorUnique` | libcomposefs/lcfs-fsverity.c:438-443 | the fields determine the descriptor, and it determines size and root |
| `FsVerity.FsVerityContext.constructor` | libcomposefs/lcfs-fsverity.c:319-336 | an empty context |
| `FsVerity.LimitValues` | libcomposefs/lcfs-fsverity.c:307-307 | what eight levels amount to |
| `FuseLookup.Lookup` | tools/cfs-fuse.c:214-356 | the binary search over blocks and in a block, then the tail, finds an entry if and only if there is one of that name that is no whiteout, for every name not before the first entry of the first block |
| `FuseLookup.ReplyMeans` | tools/cfs-fuse.c:279-356 | which entry is the answer, and when there is none |
| `FuseLookup.LookupBlock` | tools/cfs-fuse.c:214-277 | found, or before, after or inside the block |
| `FuseLookup.HitOfIs` | tools/cfs-fuse.c:214-277 | exactly one of these answers fits |
| `FuseLookup.Memcmp2IsOrder` | tools/cfs-fuse.c:201-212 | the comparison is the lexicographic order |
| `FuseLookup.HaltsWhen` | tools/cfs-fuse.c:319-346 | the search ends exactly for names that are not before the first entry of the first block |
| `FuseLookup.WrittenDirOk` | libcomposefs/lcfs-writer-erofs.c:757-807 | written directories meet what the search relies on |
| `FuseReaddir.Readdir` | tools/cfs-fuse.c:494-572 | one page from any offset: the longest part of what the code takes to come next whose visible entries fit, hidden ones left out |
| `FuseReaddir.PageMeans` | tools/cfs-fuse.c:431-488 | a page is a beginning without hidden entries; the next visible entry would not have fit |
| `FuseReaddir.RestAtMeans` | tools/cfs-fuse.c:388-429 | what comes from an offset on: exactly the entries at or behind it, of the same block and of later ones unless it is behind the last of its block |
| `FuseReaddir.LaterPassedOver` | tools/cfs-fuse.c:405-411 | from an offset behind the entries of a block, later blocks are passed over; from any other they are not |
| `FuseReaddir.DirBuf.AddBlock` | tools/cfs-fuse.c:388-492 | the entries of a block from the offset on, rounded up to an entry, until one does not fit; an offset behind the last is left |
| `FuseReaddir.NextLeads` | tools/cfs-fuse.c:431-488 | the offset that comes with an entry leads to what is behind it |
| `FuseReaddir.ListingSound` | tools/cfs-fuse.c:494-572 | whatever the page sizes, nothing is listed twice, out of order or invented |
| `FuseReaddir.ListingComplete` | tools/cfs-fuse.c:494-572 | when every page has room for an entry, enough pages list everything |
| `MountedDir.ListPages` | tools/cfs-fuse.c:494-572 | asking for page after page gives the listing |
| `MountedDir.WrittenListed` | tools/cfs-fuse.c:494-572 | listing a written directory gives its entries that are not hidden, in order, each once |
| `MountedDir.StoredOk` | libcomposefs/lcfs-writer-erofs.c:757-807 | written directories meet what listing relies on |
| `DumpLine.LineRoundTrip` | tools/mkcomposefs.c:402-594 | a printed node parses back to itself exactly when its attributes are within the setter limits and 65535 bytes of text, and its mode, size, content and device number are accepted |
| `DumpFormat.LineConforms` | tools/composefs-info.c:178-250 | a printed line is one of the format: eleven fields in their order, numbers in decimal and the mode in octal, seconds and nanoseconds around a dot, dashes for what is absent, then the attributes |
| `DumpFormat.UnescapeMeans` | tools/mkcomposefs.c:109-179 | a text is unescaped to some bytes if and only if it is one of the ways to write them |
| `DumpFormat.EscapePrints` | tools/composefs-info.c:49-98 | which bytes are printed as they are, and how the others |
| `DumpFormat.HexDigitIs` | libcomposefs/lcfs-utils.h:51-60 | the hexadecimal digits of both cases by value, and nothing else |
| `DumpFormat.DigitsAre` | tools/composefs-info.c:199-204 | numbers in positional notation without leading zeros |
| `DumpLine.LinkRoundTrip` | tools/mkcomposefs.c:436-475 | a printed hard link parses back unless it is one to a directory |
| `DumpLine.ReadAttrs` | tools/mkcomposefs.c:584-592 | the attribute loop, with the setter and its refusals |
| `DumpLine.AttrsBack` | tools/mkcomposefs.c:273-295 | printed attributes parse back exactly when they fit |
| `DumpLine.SplitLine` | tools/mkcomposefs.c:420-425 | the fields of a line |
| `DumpText.UnescapeEscaped` | tools/mkcomposefs.c:109-179 | unescaping undoes escaping, for any bytes |
| `DumpText.PrintEscaped` | tools/composefs-info.c:49-98 | the escaping loop |
| `DumpText.UnescapeString` | tools/mkcomposefs.c:109-179 | the unescaping loop, with its errors |
| `DumpText.EscapedIsClean` | tools/composefs-info.c:49-98 | escaped text holds no separator |
| `DumpText.NotAbsent` | tools/composefs-info.c:100-107 | no value prints as the dash for an absent one |
| `DumpText.SplitOff` | tools/mkcomposefs.c:63-84 | splitting at a separator |
| `DumpText.ParseDigits` | tools/mkcomposefs.c:241-255 | printed numbers parse back |
| `DumpFormat.ParseMeans` | tools/mkcomposefs.c:241-255 | for any text: white space, a sign, digits, and what number they are; too large ones are cut off, negative ones wrap |
| `DumpText.ParseSigned` | tools/mkcomposefs.c:257-271 | also negative ones |
| `WorkPool.SuccessMeans` | tools/mkcomposefs.c:1324-1381 | success is returned exactly when nothing failed; then every item was processed and succeeded |
| `WorkPool.RunInv` | tools/mkcomposefs.c:1300-1381 | the invariant holds in every state of every run |
| `WorkPool.HandedOnce` | tools/mkcomposefs.c:1246-1264 | no item is handed out twice |
| `WorkPool.ItemsNotShared` | tools/mkcomposefs.c:1246-1264 | no two threads work on one item |
| `WorkPool.CancelIsFinal` | tools/mkcomposefs.c:1266-1275 | after a cancel nothing is handed out and the recorded error code stays as it is |
| `WorkPool.RecordedCode` | tools/mkcomposefs.c:1266-1275 | in every run with a cancel the recorded code is the one of the first step that cancelled: the error of the item, of starting or of joining a thread |
| `WorkPool.FailureCode` | tools/mkcomposefs.c:1324-1381 | the code that is returned is that one, unless starting a thread failed: then it is the code of that failure |
| `WorkPool.NoDeadlock` | tools/mkcomposefs.c:1300-1381 | until the call returns, some thread can go on |
| `WorkPool.RunsEnd` | tools/mkcomposefs.c:1300-1381 | no run is longer than a bound in items and threads |
| `WorkPool.Iterator.GetNext` | tools/mkcomposefs.c:1246-1264 | hands out the current item and advances by one, unless cancelled or at the end, when nothing changes |
| `WorkPool.Iterator.RequestCancel` | tools/mkcomposefs.c:1266-1275 | the first cancel records its code, a later one changes nothing |
| `FuseLookup.LookupHangs` | tools/cfs-fuse.c:342-345 | a name before the first entry of a written directory with a block is searched for without end |
| `MountedDir.RootLookupHangs` | tools/cfs-fuse.c:342-345 | looking for "-" in the root of an otherwise empty image does not end |
| `HardLinks.FollowHangs` | libcomposefs/lcfs-writer.c:285-297 | a chain of links into a cycle that misses its start is followed without end |
| `TreeOrder.DirectoryLinkAccepted` | libcomposefs/lcfs-writer.c:212-218 | a tree with a hard link to a directory is acceptable |
| `XattrExact.EmptyAclLost` | libcomposefs/lcfs-writer-erofs.c:1887-1887 | an empty ACL as only attribute is not read back |
| `DumpLine.LargeValueRefused` | tools/mkcomposefs.c:273-295 | a value of 40000 bytes that fits in an image is refused in a dump |
| `DumpLine.LongTextRefused` | tools/mkcomposefs.c:577-582 | 20000 zero bytes are within the setter limit but their text is refused |
| `DumpLine.BadGroupAccepted` | tools/mkcomposefs.c:486-497 | the line of any node that does not belong to user 0, with anything for its group, is accepted, with group 0 |
| `DumpLine.OwnerChecked` | tools/mkcomposefs.c:486-497 | every accepted line has numbers for group and device, or a user that is not 0 |
| `DumpLine.BadNumberNoticed` | tools/mkcomposefs.c:486-497 | a line with a bad group or device number is refused if and only if the user is 0 or the line with 0 in its place is refused; otherwise it means the same as that line |
| `Chunking.WrappedCount` | libcomposefs/lcfs-writer-erofs.c:493-499 | the chunk count of a file of 2^64 - 1 bytes is zero |
| `FsVerity.EmptyFile` | libcomposefs/lcfs-fsverity.c:410-428 | for an empty file the root hash is that of a zero block, which differs from the standard unless that hash is zero |
| `FsVerity.EmptyDigest` | libcomposefs/lcfs-fsverity.c:410-448 | so the digest differs unless that hash is zero or the two descriptors collide |
| `NodeAttrs.RefusalRemoves` | libcomposefs/lcfs-writer.c:1688-1750 | replacing a value by one of 40000 bytes loses it |
| `NodeAttrs.CopyRefuses` | libcomposefs/lcfs-writer.c:1362-1416 | on a copied node with two attributes a value of two bytes cannot be replaced by one of one byte |
| `AttrReturn.ReservedIsLost` | libcomposefs/lcfs-writer-erofs.c:1648-1653 | an attribute with a reserved name is gone |
| `AttrReturn.OpaqueAppears` | libcomposefs/lcfs-writer-erofs.c:1220-1231 | a directory without attributes has two when there is a whiteout in it |
| `PayloadReturn.PayloadGrows` | libcomposefs/lcfs-writer-erofs.c:1620-1625 | the payload "abc" in front of a chunk index comes back two bytes longer |
| `LoadedTree.TwoNamesRefused` | libcomposefs/lcfs-writer-erofs.c:1704-1722 | a root with two names for one whiteout is never loaded |
| `FuseReaddir.SecondBlockMissed` | tools/cfs-fuse.c:405-411 | asking for what is behind the only entry of the first of two blocks shows nothing of the second |
| `WorkPool.LaterCodeReported` | tools/mkcomposefs.c:1352-1361 | an item fails with 5, then starting a thread fails with 11: 5 is recorded, 11 is reported |

## Findings

Properties one would expect that do not hold of the code.  Each has a lemma with an input that shows it and, in the last
column, the exact condition under which the property does hold.

| what happens | source | shown by | exactly when |
|---|---|---|---|
| Looking up a name that sorts before the first entry of a directory with a block of its own does not end: the loop neither moves its end below block 0 nor leaves. | tools/cfs-fuse.c:342-345 | FuseLookup.LookupHangs, MountedDir.RootLookupHangs | FuseLookup.HaltsWhen: ends if and only if there is no block or the name is not before its first entry |
| Following hard links does not end when the chain runs into a cycle without its start, as for links 0 to 1, 1 to 2, 2 to 1. | libcomposefs/lcfs-writer.c:285-297 | HardLinks.FollowHangs | HardLinks.HaltsWhen: ends if and only if there is no such cycle |
| The test that is to refuse hard links to directories never sees a link below the root, because links are not put on the list. | libcomposefs/lcfs-writer.c:212-218 | TreeOrder.DirectoryLinkAccepted | TreeOrder.DirectoryLinkFound: trips if and only if the root itself is such a link |
| The loop over inline attributes stops while a header is left, so a last attribute with neither suffix nor value is lost; an empty ACL is one. | libcomposefs/lcfs-writer-erofs.c:1887-1887 | XattrExact.EmptyAclLost | XattrExact.AttributesExact: all come back if and only if the last one kept with the inode is not bare |
| A dump line is not always accepted back: the parser sets attributes with half the limit of the image, and bounds the text. | tools/mkcomposefs.c:577-592 | DumpLine.LargeValueRefused, DumpLine.LongTextRefused | DumpLine.LineRoundTrip: back if and only if `Accepted` |
| A bad group or device number in a dump line is taken for 0, because its check looks at the user number. | tools/mkcomposefs.c:486-497 | DumpLine.BadGroupAccepted | DumpLine.BadNumberNoticed: noticed if and only if the user is 0 or the line is refused for something else |
| The chunk count wraps for sizes within one chunk of 2^64, so the check on it passes. | libcomposefs/lcfs-writer-erofs.c:493-499 | Chunking.WrappedCount | Chunking.ChunkLimit: passes if and only if the size is at most 2^53 or above 2^64 - 2^43 |
| For an empty file a zero block is hashed, where the kernel documentation of fs-verity has a zero root hash. | libcomposefs/lcfs-fsverity.c:410-428 | FsVerity.EmptyFile, FsVerity.EmptyDigest | FsVerity.DigestOf: equal to the standard for every non-empty file; FsVerity.EmptyDigest: equal for the empty one if and only if the hash of a zero block is zero or the descriptors collide |
| Setting an attribute that is refused for its size has already removed the value it was to replace. | libcomposefs/lcfs-writer.c:1688-1750 | NodeAttrs.RefusalRemoves | NodeAttrs.RefusalKeeps: the list is left alone if and only if the name or the size of the value is bad or there was none to replace |
| A copied node counts its attributes from zero in an unsigned counter, so replacing a value by a shorter one is refused; the writer, which works on a copy, refuses trees with a longer value under the name of one of its marks. | libcomposefs/lcfs-writer.c:1362-1416 | NodeAttrs.CopyRefuses | NodeAttrs.CopyShrinks: taken if and only if the new value is not shorter, nor longer by more than the limit; RewrittenTree.RewriteTree: attributes are refused only where such a name is used |
| Attributes with a name that the writer uses for whiteouts do not come back, and a file with one of them comes back as a whiteout. | libcomposefs/lcfs-writer-erofs.c:1640-1653 | AttrReturn.ReservedIsLost | AttrReturn.ReturnedExactly and AttrReturn.WhiteoutReturns: back if and only if no name is reserved |
| A directory with a whiteout in it comes back with two opaque attributes that it did not have, from version 1 on. | libcomposefs/lcfs-writer-erofs.c:1220-1231 | AttrReturn.OpaqueAppears | AttrReturn.ReturnedExactly: not if and only if it has no whiteout, or the version is 0, or it had them already |
| The payload of a file can come back longer: passing over the slash adds one to the length, where one should be taken off. | libcomposefs/lcfs-writer-erofs.c:1620-1625 | PayloadReturn.PayloadGrows | PayloadReturn.PayloadExact: back if and only if a zero byte follows; PayloadReturn.PayloadReturns: which is if and only if the length is not 3 modulo 4 or the next name has no suffix |
| A second name of a whiteout leads to a node that has been released, because its slot stays in the table. | libcomposefs/lcfs-writer-erofs.c:1704-1722 | LoadedTree.TwoNamesRefused | LoadedTree.LoadedHasOneName and TreeLoader.LoadTree: this happens if and only if some whiteout has two names |
| The error of an item that made the others stop is not reported when starting a thread fails after that: the later error is, though only the first is to be recorded. | tools/mkcomposefs.c:1352-1361 | WorkPool.LaterCodeReported | WorkPool.FailureCode: the code of the first cancel is returned if and only if starting no thread failed with another code |
| Listing from an offset behind the last entry of a block shows nothing of later blocks; the code that was to go on with them is never reached. | tools/cfs-fuse.c:405-420 | FuseReaddir.SecondBlockMissed | FuseReaddir.LaterPassedOver: later blocks are shown if and only if there are none or the offset is not behind the last entry |

## Left out

- Failures of the output callback and of reading files: every write succeeds. Lack of memory is modelled where the code recovers from it or reports it; a parameter or field `ample` says that no allocation fails.
- SHA-256 is a parameter of `FsVerity` and `Merkle`; xxh32 is a parameter of `NameFilter`.
- The hash tables behind the counting of shared attributes and behind the loader's slots are maps there; the table itself is modelled in `HashTable`. The tuning of the table in floating point is a parameter (the new size), and so is whether to grow or shrink.
- The two calls of the system sort are insertion sorts with the same contract: sorted by the comparator, same elements.
- Reads outside the image, which the C code prevents by checks or not at all, are errors of the reading functions.
- WholeTrip.ThereAndBack: the loader hands out nodes with the attributes as they are stored; what the node makes of them (names unescaped, digest, redirect, whiteouts) is said of each in `AttrsReturn`, as the result of `Overlay.AbsorbXattrs`, and only for nodes without a bare last attribute; the tree has fewer than 2^29 nodes. An image of 4 GiB ends in an error, where the code would write one that cannot be read.
- PayloadReturn.PayloadReturns: for redirects that are not shared; for shared ones `PayloadReturn.PayloadExact` says which byte decides.
- TreeRoundTrip.ThereAndBack: starts from the rewritten tree and compares attributes as they are stored; `WholeTrip.ThereAndBack` is the one from the tree of a user.
- TreeLoader.LoadTree: a second name of a whiteout is reported as an error, where the code would link to a node it has released; the filter on toplevel names and names with a zero byte are not modelled, and the limits of the setter are in `Overlay.AbsorbXattrs`.
- DumpLine.LineRoundTrip: parsing ends with the node; adding it to a tree by its path and resolving hard links afterwards are not modelled, nor is the conversion of the digest between text and bytes.
- DumpLine.ReadAttrs: when memory runs out the result of the loop is not determined.
- HashTable.Table.Lookup: entries are values; that the table returns the very object that was stored is not expressed.
- FuseLookup.Lookup: blocks are decoded before they are searched; `DirBlocks.DirRoundTrip` is the link to bytes. Which entries are whiteouts is a parameter.
- FuseReaddir.Readdir: the cost of an entry and which entries are hidden are parameters.
- WorkPool.SuccessMeans: a thread's work is one step with a given outcome; the mutex makes taking an item and cancelling atomic, and a failing lock and a failing allocation of the thread list are not modelled.
- Reference counting of nodes, the building of trees from a file system, mounting, ioctls, reading and extended attributes over FUSE, the object store and the command line tools.
