# Verified model of the package builder, the browser file system and the loader

This project models five parts of the repository and proves what they promise
together.

* **The image and package builder** (`payload/libprosperopkg`). A directory is
  scanned into a tree of inodes, the tree is laid out in blocks, and header, inode
  table, bitmap and streamed file data are written with absolute seeks; finally the
  package header is written again over the start of the file. The inodes are heap
  objects that the code mutates; the file is a byte sequence with a position, and a
  write past the end fills the gap with zeros. `Words`, `ByteFile`, `PfsLayout`,
  `PfsTree`, `PfsScan`, `PfsEntries`, `PfsBuilder`, `PfsImage`, `PkgBuilder`, `PkgEmbedded`,
  `PkgContents`, `PfsFind`.
* **The in-memory file system of the browser build** (`www/wasm/prosperopkg.js`).
  The chained name index over heap nodes against the directory contents, path lookup
  with "..", links and permissions, whether every node still hangs from the root,
  growable file storage under several streams against a sparse byte file, the UTF-8
  codec, path normalisation, and paged directory reads. `NameTable`, `MemTree`, `MemLinks`,
  `MemErrors`, `MemFs`, `MemRooted`, `MemFile`, `MemStreams`, `Utf8`, `Paths`, `Getdents`.
* **`param.sfo`**: the Python writer and the C and JavaScript readers. `RawBytes`,
  `Sfo`, `SfoTheorems`, `SfoLayout`.
* **The text layer of the HTTP server** (`payload/pkg_server.c`): in-place URL
  decoding, query lookup, the growable answer buffer, the JSON listing, the parent
  path. `CText`, `Query`, `GrowString`, `Json`, `Browse`, `ParentPath`.
* **The relocation passes of the dynamic linker** (`payload/crt/rtld.c`): the tables,
  the library search path and the table of system modules are read from the same image
  the passes write to. `Rtld`, `RtldPass`, `RtldLoad`, `RtldImage`, `RtldTheorems`.

Code that works by changing things step by step is a class or a method with loops,
proved against functions on values; the promises are lemmas about those functions. What
a function means is also said without it: by what directories list, by the words and
bytes of a file at literal offsets, by the order and the sum of reads and writes.
`dafny verify dfyconfig.toml` checks the whole project.

Facts about the code that the theorems make exact:

* `align_up` rounds up to a multiple for all values if and only if the alignment is a
  power of two (`Words.AlignedIsRoundUp`). The image builder accepts every block size, and
  with every block size the files do not overlap in the image and read back from it.
* The package builder accepts every block size too, but with small blocks the data area
  starts inside the space of the package header, which is written again at the end. A
  file survives if and only if its padded bytes are those that the rewrite puts there,
  the header on [0, 0x3F60) and the entry table on [0x4000, 0x4040)
  (`PkgBuilder.PackageFileReadsBack`). With blocks of 4096 bytes a package of one
  one-byte file loses it, unless the byte is zero (`PkgBuilder.SmallBlocksLoseFile`).
* `pfs_write_image` seeks to absolute offsets, but its only caller, `pkg_build`, starts it
  behind the package header. In a package of 65536-byte blocks the file data always reads
  back, and the other parts of the image survive if and only if: the image header, fewer
  than 8 blocks are used or there are at least 65 inodes; the bitmap, fewer than 8 blocks
  or at least 61 inodes; the inode table, fewer than 8 blocks and the first file does not
  overwrite the end of the table with something else (`PkgEmbedded.EmbeddedHeaderSurvives`,
  `PkgEmbedded.BitmapSurvives`, `PkgEmbedded.EmbeddedTableSurvives`). With fewer than 8
  blocks no part of the table is in reach of the data if and only if
  1 <= (inodes + 4) mod 256 <= 191 (`PkgEmbedded.TailIsEmpty`).
* With the default block size the recorded package size is the length of the file if
  and only if there is file data (`PkgBuilder.PackageSizeIsLength`).
* With a power of two as block size, `pfs_calculate_size` is below the end of the data by
  exactly the alignment padding of the metadata, and the fill of the bitmap stays in its
  buffer if and only if the block count is a multiple of 8 or its eighth is not a
  multiple of the block size
  (`PfsLayout.CalculatedSizeShortfall`, `PfsLayout.BitmapFillFits`).
* A package has a record for the root and one for every regular file and directory that
  opened directories lead to, each once and in the order of the listings
  (`PfsEntries.RecordsAreEntries`); with the block size that every caller uses, the bytes
  of every such file are in it (`PkgContents.FileIsPacked`).
* `pkg_add_entry` never sets the offset of an entry, and the entry data never reaches
  the file; the table that reads back has zero offsets.
* The ancestor test of `FS.rename` compares path texts. It finds the moves of a node to
  itself or below itself, except those where the first name on the way below starts with
  a dot; when these succeed, they cut the directory off from the root
  (`MemRooted.AncestorTestExact`, `MemRooted.DotNameFoolsTest`). A node that is cut off
  stays so. A run ends with every node below the root if and only if none of its
  successful renames moved a node below itself; when no links are made, if and only if
  every rename that is hidden from the test in this way failed
  (`MemRooted.RunRooted`, `MemRooted.RunRootedByText`).
* A path means what its parts mean one after the other: a name, "..", a link whose text
  goes on from the directory of the link or from the root, in at most 40 walks
  (`MemLinks.PathMeans`).
* A path of 40 components ".." at the root ends with the error for too many links,
  because each of them starts the walk over (`MemTree.ParentsOfRoot`).
* The comment on `compute_parent_path` says that the result is empty for a root, but
  `/` is its own parent (`ParentPath.RootIsItsParent`).
* On a repeated key the C reader of `param.sfo` takes the first row, the JavaScript
  reader the last one with a known format. They agree on a key if and only if these two
  rows agree as far as the buffer takes them (`SfoTheorems.ReadersAgree`); a file of two
  rows on which they differ is `SfoTheorems.RepeatedKeyDiffers`. The C reader reads past
  the end of the file if and only if the first row that it does not pass over has a key
  that the file does not terminate, or the wanted key and a value whose 32-bit end wraps
  round (`SfoTheorems.BeyondExactly`).
* A library other than the four special ones opens if and only if some directory of the
  search path has an accessible "stem.sprx" that loads, no earlier one does, and its
  system modules load (`Rtld.OpenedExactly`).
* `rtld_load` must relocate before it opens libraries: after the first pass the search
  path and the module table read as the linker described them, before it their pointers
  lie outside the image (`RtldLoad.TablesReady`, `RtldLoad.TablesNotReady`).
* Decoding what was encoded gives a JavaScript string back if and only if it is
  well-formed UTF-16 and has no zero unit (`Utf8.RoundTrip`).

## Model

| member | source | states |
|---|---|---|
| Words.AlignUpIsAligned | payload/libprosperopkg/src/utils.c:6-8 | for every alignment the masked 64-bit form is the form without wrap-around exactly while the sum does not wrap, and below the value once it wraps |
| Words.AlignedIsRoundUp | payload/libprosperopkg/src/utils.c:6-8 | the masked form rounds up to a multiple for all values exactly when the alignment is a power of two |
| Words.RoundUpIsLeast | payload/libprosperopkg/src/utils.c:6-8 | the aligned value is the least multiple of the alignment that is not below the argument |
| Words.ReadWriteLE | payload/libprosperopkg/src/utils.c:14-40 | a stored little-endian field reads back as the value modulo its width |
| PfsTree.Inode.constructor | payload/libprosperopkg/src/pfs_inode.c:8-29 | a new inode takes the next number, keeps its parent and starts with the mode of its kind and zero sizes |
| PfsTree.Inode.AddChild | payload/libprosperopkg/src/pfs_inode.c:47-54 | the child is appended and the link count grows by one |
| PfsScan.ScanDirectory | payload/libprosperopkg/src/pfs_directory.c:10-64 | the scan attaches fresh, distinct nodes, children of the scanned directory, whose records in pre-order are those of the directory entries with paths cut to the path buffer, for every outcome of opening and stat |
| PfsScan.ScannedNumbers | payload/libprosperopkg/src/pfs_directory.c:17-60 | the root has number 1 and record k the number base + k in pre-order, so the numbers are unique |
| PfsEntries.RecordsAreEntries | payload/libprosperopkg/src/pfs_directory.c:10-64 | said of the directory tree alone: behind the root there is one record for every regular file and directory that opened directories lead to, except "." and "..", each once and in the order of the listings, with its name, mode, size, number, number of links and path cut to 4095 bytes |
| PfsEntries.EntryIsPacked | payload/libprosperopkg/src/pfs_directory.c:17-60 | in particular, such an entry has a record with its name, kind, size and path |
| PfsTree.CountInodes | payload/libprosperopkg/src/pfs_builder.c:42-50 | the count is the number of nodes in pre-order |
| PfsTree.CountBlocks | payload/libprosperopkg/src/pfs_builder.c:52-64 | for every block size the count is the sum of the blocks of the non-empty files |
| PfsTree.AssignOffsets | payload/libprosperopkg/src/pfs_builder.c:66-77 | for every block size the walk over the heap tree writes exactly the offsets of the flat layout into the files and changes no other field |
| PfsLayout.ExtentBounds | payload/libprosperopkg/src/pfs_builder.c:66-77 | the extent of a non-empty file lies inside the data area, and is aligned relative to the base when the block size is a power of two |
| PfsLayout.ExtentsDisjoint | payload/libprosperopkg/src/pfs_builder.c:66-77 | the extents of two files do not overlap and follow each other in pre-order |
| PfsLayout.ExtentsTile | payload/libprosperopkg/src/pfs_builder.c:66-95 | every byte of the data area is in the extent of some file: the extents tile it |
| PfsLayout.SpanIsBlocks | payload/libprosperopkg/src/pfs_builder.c:52-77 | when the block size is a power of two, the room that the files take is their block count times the block size |
| PfsImage.PfsImage.constructor | payload/libprosperopkg/src/pfs_builder.c:12-27 | the image starts with a root numbered 1 and the default block size when none is given |
| PfsImage.PfsImage.Build | payload/libprosperopkg/src/pfs_builder.c:79-106 | for every block size the counts, the aligned data offset and the laid-out tree |
| PfsImage.PfsImage.CalculateSize | payload/libprosperopkg/src/pfs_builder.c:108-116 | the size from the stored counts, whatever they are, and the blocks of the tree counted once more |
| PfsLayout.CalculatedSizeShortfall | payload/libprosperopkg/src/pfs_builder.c:86-116 | the computed size misses the true end by the alignment padding of the metadata, less than a block, and by what the files take beyond their counted blocks; with a power of two the latter is zero, and the padding is zero exactly when the metadata is aligned |
| PfsLayout.BitmapFillFits | payload/libprosperopkg/src/pfs_builder.c:229-241 | the fill stays inside the bitmap buffer exactly when the block count is a multiple of 8 or aligning its eighth leaves room; with a power of two, when its eighth is not a multiple of the block size |
| PfsBuilder.WriteInode | payload/libprosperopkg/src/pfs_builder.c:118-135 | one 256-byte record of the node's fields is appended |
| PfsBuilder.InodeRoundTrip | payload/libprosperopkg/src/pfs_builder.c:118-135 | a record decodes to the node's mode, links, flags, sizes, offset, number and first 32 name bytes |
| PfsBuilder.WriteInodes | payload/libprosperopkg/src/pfs_builder.c:137-145 | the records are written in pre-order |
| PfsBuilder.StreamCopy | payload/libprosperopkg/src/pfs_builder.c:149-183 | for every schedule of short reads the copied bytes are the first `size` bytes of the source, and the copy fails exactly when the source is missing or too short |
| PfsBuilder.WritePadding | payload/libprosperopkg/src/pfs_builder.c:195-208 | zeros up to the block boundary |
| PfsBuilder.WriteFileData | payload/libprosperopkg/src/pfs_builder.c:185-218 | all file data goes to the nodes' offsets, padded; it fails exactly when some source cannot be copied |
| PfsImage.WriteBitmap | payload/libprosperopkg/src/pfs_builder.c:229-241 | the bitmap is written behind the table position counted from the start of the file |
| PfsImage.PfsImage.Write | payload/libprosperopkg/src/pfs_builder.c:220-251 | the bytes of the image for every starting content and position, the final position, and exactly when it fails |
| PfsLayout.PutDataReadsBack | payload/libprosperopkg/src/pfs_builder.c:185-218 | every payload is at its extent after all data writes, whatever was in the file |
| PfsLayout.DataAreaReadsBack | payload/libprosperopkg/src/pfs_builder.c:185-218 | after all data writes the data area is the padded files in pre-order, one behind the other |
| PfsImage.MetadataSurvives | payload/libprosperopkg/src/pfs_builder.c:220-251 | with the stream at 0, header, inode table and bitmap are all intact in the complete image (behind a package header: the rows of PkgEmbedded) |
| PfsImage.InodeTableReadsBack | payload/libprosperopkg/src/pfs_builder.c:118-145 | with the stream at 0, record k of the complete image decodes to the laid-out fields of node k (behind a package header: PkgEmbedded.EmbeddedInodeReadsBack) |
| PfsImage.FileReadsBack | payload/libprosperopkg/src/pfs_builder.c:185-251 | every file's bytes are at its offset followed by zeros, from any starting content and position |
| PkgBuilder.PkgContext.constructor | payload/libprosperopkg/src/pkg_builder.c:12-31 | the initial header and ten free slots |
| PkgBuilder.PkgContext.AddEntry | payload/libprosperopkg/src/pkg_builder.c:33-63 | from any slots and for any id: the first slot with id 0 gets the entry and keeps its offset, the data is appended, the count increased; it fails exactly when no id is 0, and then changes nothing |
| PkgBuilder.PkgContext.Finalize | payload/libprosperopkg/src/pkg_builder.c:65-75 | table size, second count and aligned body offset |
| PkgBuilder.PkgContext.WriteHeader | payload/libprosperopkg/src/pkg_builder.c:77-89 | header at the position, entry table at its offset |
| PkgBuilder.HeaderRoundTrip | payload/libprosperopkg/include/pkg_header.h:6-27 | the header bytes decode to the header |
| PkgBuilder.EntryTableRoundTrip | payload/libprosperopkg/src/pkg_builder.c:83-86 | the entry table bytes decode to the entries |
| PkgBuilder.PkgBuild | payload/libprosperopkg/src/pkg_builder.c:103-205 | from the scan to the closed file: the package bytes for every input, and success exactly when the directory opens, the output file opens and all sources can be copied |
| PkgBuilder.DefaultBlocksClear | payload/libprosperopkg/src/pkg_builder.c:116-196 | with 65536-byte blocks the data area starts behind the rewritten header |
| PkgBuilder.PackageFileReadsBack | payload/libprosperopkg/src/pkg_builder.c:163-196 | for every block size, a non-empty file is in the finished package at the offset of its inode, followed by zeros to the end of its extent, exactly when the rewritten header and entry table agree with it; they do when the extent is behind them |
| PkgBuilder.SmallBlocksLoseFile | payload/libprosperopkg/src/pkg_builder.c:163-196 | with blocks of 4096 bytes a package of one one-byte file holds it exactly when the byte is zero |
| PkgBuilder.PackageHeaderReadsBack | payload/libprosperopkg/src/pkg_builder.c:188-194 | header and entry table read back from the finished package, and the recorded size is the end of the data area |
| PkgBuilder.PackageLength | payload/libprosperopkg/src/pkg_builder.c:163-196 | the length of the finished file |
| PkgBuilder.PackageSizeIsLength | payload/libprosperopkg/src/pkg_builder.c:188-194 | the recorded size is the length of the file exactly when there is file data |
| PkgContents.PackageWords | payload/libprosperopkg/src/pkg_builder.c:134-194 | the words of the finished package at their offsets: magic, type, header sizes, data size 0x4000 below the package size, counts and offsets, zeros between and behind them, and the four entries with ids, sizes and no offset |
| PkgContents.ImageHeaderWords | payload/libprosperopkg/src/pfs_builder.c:20-24 | the image header has version, magic, creation time and mode as 64-bit words and zeros up to 1024 bytes |
| PkgContents.InodeWords | payload/libprosperopkg/src/pfs_builder.c:118-135 | an inode record has its words at their offsets, the name up to 32 bytes, and zeros everywhere else |
| PkgContents.OffsetsAre | payload/libprosperopkg/src/pfs_builder.c:66-106 | with 65536-byte blocks the first file starts at the first whole block behind 1024 bytes, 256 bytes a record and the whole blocks of one bit a block, and every file where the room of those before it ends |
| PkgContents.FileIsPacked | payload/libprosperopkg/src/pkg_builder.c:116-196 | with 65536-byte blocks, every non-empty regular file that opened directories lead to is in the package where the room of the records before its own ends: its bytes, and zeros up to the end of its last block |
| PkgContents.SucceedsExactly | payload/libprosperopkg/src/pfs_builder.c:149-218 | the package can be written exactly when every such file has a source with at least as many bytes as its status says |
| PkgEmbedded.PackageDataArea | payload/libprosperopkg/src/pkg_builder.c:175-180 | the data area of the finished package is the padded files one behind the other |
| PkgEmbedded.ScannedIsFromScan | payload/libprosperopkg/src/pkg_builder.c:116-126 | every scan meets the conditions of the results on the embedded image: a root directory first, and a source for every file |
| PkgEmbedded.EmbeddedHeaderSurvives | payload/libprosperopkg/src/pkg_builder.c:175-180 | the image header inside the package survives exactly when there are fewer than 8 blocks or at least 65 inodes |
| PkgEmbedded.EmbeddedTableSurvives | payload/libprosperopkg/src/pkg_builder.c:175-180 | the inode table inside the package survives exactly when there are fewer than 8 blocks and the data area starts with the tail of the table, if the table reaches it |
| PkgEmbedded.TailIsEmpty | payload/libprosperopkg/src/pkg_builder.c:175-180 | with fewer than 8 blocks the table ends before the data exactly when 1 <= (inodes + 4) mod 256 <= 191 |
| PkgEmbedded.EmbeddedInodeReadsBack | payload/libprosperopkg/src/pfs_builder.c:118-145 | while the table survives, record k of the package decodes to the laid-out fields of node k |
| PkgEmbedded.BitmapSurvives | payload/libprosperopkg/src/pkg_builder.c:175-194 | the bitmap survives the final header exactly when there are fewer than 8 blocks or at least 61 inodes |
| PkgEmbedded.EmbeddedImageSurvives | payload/libprosperopkg/src/pkg_builder.c:175-194 | header, table and bitmap of the embedded image are all there exactly when its table is |
| PfsFind.NextToken | payload/libprosperopkg/src/pfs_inode.c:63-66 | the tokens are the non-empty runs between slashes |
| PfsFind.FindChild | payload/libprosperopkg/src/pfs_inode.c:70-78 | the first child with the name, or none |
| PfsFind.PfsInodeFind | payload/libprosperopkg/src/pfs_inode.c:56-87 | the walk finds what descending along the components finds, and null otherwise |
| PfsFind.DescendIsRoute | payload/libprosperopkg/src/pfs_inode.c:56-87 | with unique sibling names a node is found exactly when it has the component list |
| PfsFind.FailsIffNoRoute | payload/libprosperopkg/src/pfs_inode.c:79-82 | nothing is found exactly when no node has the component list |
| PfsFind.TokensOfSpelling | payload/libprosperopkg/src/pfs_inode.c:63-66 | repeated, leading and trailing slashes do not change the components |
| PfsFind.FindInvertsPath | payload/libprosperopkg/src/pfs_inode.c:56-87 | looking up any spelling of a node's path gives the node |
| NameTable.HashName | www/wasm/prosperopkg.js:1955-1962 | the loop computes the 32-bit hash of parent id and name |
| NameTable.HashIsBase31 | www/wasm/prosperopkg.js:1955-1962 | the signed 32-bit steps compute the name as a number in base 31, plus the id of the parent, modulo 2^32, and then the bucket |
| NameTable.Index.HashAddNode | www/wasm/prosperopkg.js:1963-1967 | the node becomes a member, in the chain that it hashes to, and every chain stays well-formed |
| NameTable.Index.HashRemoveNode | www/wasm/prosperopkg.js:1968-1982 | a member is unlinked from its chain and all other members stay; for any other node nothing changes |
| NameTable.Index.Find | www/wasm/prosperopkg.js:1988-1994 | a member with the parent id and name is found exactly when there is one |
| NameTable.Index.ExactlyOneChain | www/wasm/prosperopkg.js:1955-1967 | every member is in exactly one chain, the one of its hash |
| MemFs.FileSystem.LookupNode | www/wasm/prosperopkg.js:1983-1997 | the index answers exactly what the directory contents and permissions say, with the error otherwise |
| MemFs.FileSystem.CreateNode | www/wasm/prosperopkg.js:1294-1300 | a fresh node is indexed and listed in its parent, nothing else changes |
| MemFs.FileSystem.MayCreate | www/wasm/prosperopkg.js:2064-2074 | the exact error, permissions included |
| MemFs.FileSystem.MayDelete | www/wasm/prosperopkg.js:2075-2099 | the exact error, with permissions and the comparison of the node's path with the current directory |
| MemFs.FileSystem.GetPath | www/wasm/prosperopkg.js:1943-1954 | the climb from a reached node gives the text of the one path that leads to it |
| MemFs.FileSystem.Mknod | www/wasm/prosperopkg.js:2329-2347 | the node is inserted, or the tree is unchanged with the exact error, for every kind of node |
| MemFs.FileSystem.Symlink | www/wasm/prosperopkg.js:2411-2429 | the link with its text is inserted, or the tree is unchanged with the exact error |
| MemFs.FileSystem.Unlink | www/wasm/prosperopkg.js:2539-2562 | the entry is deleted, or the tree is unchanged with the exact error |
| MemFs.FileSystem.Rmdir | www/wasm/prosperopkg.js:2515-2532 | the empty directory is deleted, or the tree is unchanged with the exact error |
| MemFs.FileSystem.Rename | www/wasm/prosperopkg.js:2430-2514 | the outcome for every case: the error, no change, or the move with an overwritten target |
| MemFs.FileSystem.MemfsRename | www/wasm/prosperopkg.js:1379-1398 | the node moves and a replaced target leaves the index, or it fails on a non-empty target directory |
| MemFs.FileSystem.ResolveDir | www/wasm/prosperopkg.js:1866-1942 | the walk through the index, with empty parts, ".", "..", links and the limit of 40 walks, ends where the directory contents lead, or with the exact error |
| MemTree.ParentsOfRoot | www/wasm/prosperopkg.js:1877-1902 | fewer than 40 components ".." at the root lead to the root, 40 or more to the error for too many links |
| MemLinks.PathMeans | www/wasm/prosperopkg.js:1866-1942 | lookup gives a node or an error number exactly when a relation of single steps ends with it: names by what a directory lists and permits, "." and empty parts, ".." by the listing parent, relative links from the directory of the link, absolute ones from the root, within 40 walks |
| MemLinks.LinkMeans | www/wasm/prosperopkg.js:1927-1937 | a link whose text is one name leads to what its directory lists under it, with a slash in front to what the root lists |
| MemFs.FileSystem.Step | www/wasm/prosperopkg.js:2329-2562 | every operation ends with its exact error number and an unchanged tree, or with 0 and its effect on the tree; an empty path is not found |
| MemFs.FileSystem.Run | www/wasm/prosperopkg.js:1955-2008 | after any run of operations index and contents agree, and every step has its error number and outcome |
| MemErrors.RmdirNumbers | www/wasm/prosperopkg.js:2075-2099 | when a directory is removed, and the error number of every other case, by what the directories list and permit |
| MemErrors.RenameSucceeds | www/wasm/prosperopkg.js:2430-2514 | when a rename succeeds: source found, no ancestor by the path tests, and both one node, or the source may be deleted and the target is free or gives way; 28 and 55 for the ancestors |
| MemErrors.RenameNumbers | www/wasm/prosperopkg.js:2462-2497 | the error number of every other failed rename: first those of the source, then those of the target |
| MemFs.FileSystem.IndexAgreesWithContents | www/wasm/prosperopkg.js:1983-1997 | in a valid state the chain of a name holds a matching node exactly when the directory lists that node |
| MemRooted.MoveRooted | www/wasm/prosperopkg.js:2430-2514 | a move keeps every node below the root exactly when the new directory is neither the moved node nor below it |
| MemRooted.AncestorTestExact | www/wasm/prosperopkg.js:2451-2460 | without links, for any paths: the text test finds exactly the moves of a node to itself or below itself, except those through a name that starts with a dot |
| MemRooted.RenameRooted | www/wasm/prosperopkg.js:2430-2514 | a successful rename keeps every node below the root exactly when it does not move a node to itself or below itself |
| MemRooted.CutIsHidden | www/wasm/prosperopkg.js:2451-2460 | without links a successful rename moves a node below itself exactly when the first name on the way starts with a dot |
| MemRooted.CutStays | www/wasm/prosperopkg.js:1866-1942 | a node that is cut off from the root stays cut off under every operation |
| MemRooted.NewIsRooted | www/wasm/prosperopkg.js:1217-1219 | a new file system meets the conditions of the results on runs |
| MemRooted.RunRooted | www/wasm/prosperopkg.js:2430-2514 | a run of any operations, whatever their errors, ends with every node below the root exactly when none of its successful renames moved a node below itself |
| MemRooted.RunRootedByText | www/wasm/prosperopkg.js:2430-2514 | a run that makes no links does so exactly when every rename that is hidden from the ancestor test failed |
| MemRooted.DotNameFoolsTest | www/wasm/prosperopkg.js:886-918 | moving /a to /a/.h/x passes the test, succeeds, and cuts /a off |
| MemFile.MemFile.ExpandFileStorage | www/wasm/prosperopkg.js:1307-1319 | the capacity grows geometrically, the content stays, and what is behind it is zero |
| MemFile.MemFile.ResizeFileStorage | www/wasm/prosperopkg.js:1320-1333 | the content is cut or filled with zeros |
| MemFile.MemFile.Read | www/wasm/prosperopkg.js:1427-1438 | the bytes at the position as far as the file goes |
| MemFile.MemFile.Write | www/wasm/prosperopkg.js:1439-1482 | a positioned write that fills a gap with zeros, through all three storage paths |
| MemFile.Stream.Llseek | www/wasm/prosperopkg.js:2802-2815 | the new position or the error, also for closed streams, directories and streams that cannot seek |
| MemFile.Stream.Write | www/wasm/prosperopkg.js:2843-2873 | write at a position, at the stream position, or at the end in append mode; the error for a negative position, a closed stream, a missing mode, a directory or a position on a stream that cannot seek |
| MemFile.Stream.Read | www/wasm/prosperopkg.js:2816-2842 | read at a position or at the stream position; the error for a negative length or position, a closed stream, a missing mode, a directory or a position on a stream that cannot seek |
| MemFile.Stream.Truncate | www/wasm/prosperopkg.js:2640-2675 | the content is cut or filled with zeros, or the exact error |
| MemFile.Stream.Close | www/wasm/prosperopkg.js:2783-2798 | the stream is closed; closing it again is an error |
| MemFile.Run | www/wasm/prosperopkg.js:1307-1496 | any interleaving of operations on any number of streams of one file gives the replies, the content and the positions of the sparse byte file |
| MemFile.ReadAfterWrite | www/wasm/prosperopkg.js:1427-1482 | what was written is read back |
| MemFile.TruncateForgets | www/wasm/prosperopkg.js:1320-1333 | bytes cut off by a shrink are zero when the file grows again |
| MemFile.AppendsConcatenate | www/wasm/prosperopkg.js:2860-2863 | any run of appends from any number of streams, with reads and seeks in between, puts the written data one behind the other at the end |
| MemStreams.ReadsInOrder | www/wasm/prosperopkg.js:2816-2842 | any run of reads without a position on one stream delivers the bytes from its position on, up to the sum of the counts or the end, whatever other streams read and positioned reads come between |
| MemStreams.SeekThenReads | www/wasm/prosperopkg.js:2802-2815 | a seek from the start, the position or the end is followed by reads from its target; a target before the start is error 28 and changes nothing |
| MemStreams.WritesInOrder | www/wasm/prosperopkg.js:2843-2873 | outside append mode writes without a position put their data one behind the other from the position of the stream; the gap is zero and all other bytes stay |
| MemStreams.WritesApart | www/wasm/prosperopkg.js:2843-2873 | positioned writes through any stream that stay out of the range do not disturb them |
| MemStreams.AppendLeaves | www/wasm/prosperopkg.js:2860-2872 | in append mode a write without a position goes to the end and leaves the stream behind it; one with a position goes there and leaves the stream at the old end |
| MemStreams.ClosedStays | www/wasm/prosperopkg.js:2783-2801 | after a close every run of calls leaves the stream closed and where it is, and its own calls only give errors |
| Utf8.LengthBytesUTF8 | www/wasm/prosperopkg.js:977-996 | the number of bytes of the complete encoding |
| Utf8.StringToUTF8Array | www/wasm/prosperopkg.js:998-1044 | the heap gets the encoding that fits and a zero, nothing else; the result is the number of bytes before the zero |
| Utf8.EncodedIsLongestPrefix | www/wasm/prosperopkg.js:1020-1039 | what is written is a whole-code-point prefix, and one code point more would not fit |
| Utf8.UTF8ArrayToString | www/wasm/prosperopkg.js:945-972 | the loop decodes up to the first zero or the limit |
| Utf8.ScanRoundTrip | www/wasm/prosperopkg.js:1015-1019 | the code points that the encoder sees give the string back exactly when it is well-formed UTF-16 |
| Utf8.DecodeEncoded | www/wasm/prosperopkg.js:948-971 | the encoding of any code points decodes to their units |
| Utf8.WellFormedExactly | www/wasm/prosperopkg.js:1015-1019 | a string is well-formed exactly when, unit by unit, every high surrogate has a low one behind it and every low one a high one in front |
| Utf8.RoundTrip | www/wasm/prosperopkg.js:932-1044 | encode, terminate, decode gives the string back exactly when it is well-formed and has no zero unit |
| Paths.NormalizeArray | www/wasm/prosperopkg.js:800-822 | the backward scan with its counter equals the forward walk with a stack, for both values of the flag |
| Paths.OnlyLeadingDots | www/wasm/prosperopkg.js:800-822 | ".." is left only as a leading run, "." nowhere |
| Paths.ArrayIdempotent | www/wasm/prosperopkg.js:800-822 | normalising components twice is normalising once |
| Paths.ArraySameDestination | www/wasm/prosperopkg.js:800-822 | from every directory the normalised components lead where the components lead |
| Paths.ArrayCanonical | www/wasm/prosperopkg.js:800-822 | component lists that lead to the same place from everywhere have the same normal form |
| Paths.Normalize | www/wasm/prosperopkg.js:823-835 | the spelling of the resolved components with the leading and trailing slash of the path |
| Paths.NormalizeIdempotent | www/wasm/prosperopkg.js:823-835 | `PATH.normalize` is idempotent on every string |
| Paths.SameDestination | www/wasm/prosperopkg.js:823-835 | the normalised path is absolute exactly when the path is, and leads to the same place |
| Paths.NormalIsCanonical | www/wasm/prosperopkg.js:823-835 | paths with the same outer slashes have the same normal form exactly when they lead to the same place from everywhere |
| Getdents.WriteRecord | www/wasm/prosperopkg.js:3613-3619 | the 280-byte record: id, next offset, size, type and the name cut to whole code points |
| Getdents.DirStream.Getdents | www/wasm/prosperopkg.js:3570-3627 | one call: the cached listing, the records from the position on that fit, the new position and the byte count; or, when a name has vanished, the records before it, the error and the old position |
| Getdents.BatchReads | www/wasm/prosperopkg.js:3581-3620 | each record of the buffer reads back as the entry of its index |
| Getdents.BatchBytes | www/wasm/prosperopkg.js:3584-3619 | the bytes of each record: id, 280 times the next index, 280, the type code of the kind, the name and a zero, for ".", ".." and the names in order |
| Getdents.NameReadIsName | www/wasm/prosperopkg.js:3618-3618 | a well-formed name of at most 255 bytes without zero is read unchanged |
| Getdents.ReadDirectory | www/wasm/prosperopkg.js:3570-3627 | for any buffer sizes of at least 280 the calls deliver the listing once, in order, and reach a 0 result after at most one call more than entries |
| Sfo.BuildSfo | payload/tools/gen_param_sfo.py:43-96 | the file for every configuration, and an exception exactly when a value has the wrong type or a number does not fit its field |
| Sfo.ParseParamSfo | www/js/sfo-parser.js:8-52 | for every byte string: nothing without the header, else the map of the rows inside the file, where the last row with a key wins |
| Sfo.StrCmp | payload/param_sfo.c:66-66 | equal, different, or running past the file |
| Sfo.SfoReadField | payload/param_sfo.c:29-85 | the search with 32-bit sums for every byte string: not found, the copied value, or a read past the file |
| SfoTheorems.ReadersAgree | payload/param_sfo.c:48-77 | on every sound file, also with repeated keys and unknown formats: the C reader finds a key exactly when a row has it and gives the first such row, the JavaScript reader when a row with a known format has it and gives the last such row; they agree exactly when these rows agree, for texts and numbers |
| SfoTheorems.DistinctKeysAgree | payload/param_sfo.c:48-77 | with distinct keys and known formats the readers have the same keys and values, as far as the buffer takes them |
| SfoTheorems.RepeatedKeyDiffers | payload/param_sfo.c:54-77 | on a file of two rows with one key and different texts the readers give different values |
| SfoTheorems.BeyondExactly | payload/param_sfo.c:54-77 | the C reader reads past the file exactly when the first row it does not pass over has an unterminated key at the end of the file, or the wanted key and a value whose end wraps round |
| SfoTheorems.OpenKeyReadsBeyond | payload/param_sfo.c:61-66 | a 37-byte file that leads the C reader past its end |
| SfoTheorems.WrittenRow | payload/tools/gen_param_sfo.py:82-96 | row i of a written file has the key and the value of entry i |
| SfoTheorems.WrittenIsSound | payload/tools/gen_param_sfo.py:43-96 | a written file below 4 GiB is sound, and every row has its key and a known format |
| SfoTheorems.WriteThenParse | payload/tools/gen_param_sfo.py:43-96 | the JavaScript reader gives back the configuration that the Python writer was given |
| SfoTheorems.ExpectedIsConfig | payload/tools/gen_param_sfo.py:52-76 | with distinct keys no present field is lost and none is invented |
| SfoTheorems.WriteThenReadField | payload/param_sfo.c:29-85 | on a written file the C reader fails exactly on absent keys and gives texts and numbers as far as the buffer takes them |
| SfoTheorems.TableIsGood | payload/tools/gen_param_sfo.py:28-38 | the table of fields meets the conditions of the round trip |
| SfoLayout.WritableExactly | payload/tools/gen_param_sfo.py:52-96 | there is a file exactly when every value has the type of its field and every offset and length fits its field |
| SfoLayout.HeaderBytes | payload/tools/gen_param_sfo.py:78-89 | magic, version 0x101, table offsets and number of rows; keys behind the rows, zeros, and the data table at a multiple of 4 up to the end of the file |
| SfoLayout.RowBytes | payload/tools/gen_param_sfo.py:52-96 | row by row: key offset, format, length, reserved room and data offset, the key with a zero, and the value with zeros up to its room, each starting where the one before it ends |
| SfoLayout.TitleFile | payload/tools/gen_param_sfo.py:28-96 | the 172 bytes of the file for a title alone |
| Query.UrlDecode | payload/pkg_server.c:58-76 | the in-place loop leaves the decoding of the text in the buffer, terminated, and does not touch what follows |
| Query.QsGet | payload/pkg_server.c:79-101 | the buffer gets the decoded value that the search finds; when it finds none the buffer is unchanged |
| Query.DecodeInvertsEncode | payload/pkg_server.c:58-76 | decoding inverts every percent-encoding, with "+" for spaces |
| Query.EncodeEncodes | www/js/browser.js:190-190 | `encodeURIComponent` on bytes is such an encoding |
| Query.LookupIsFirst | payload/pkg_server.c:79-101 | on encoded pairs the search finds the first pair with the key and never a text inside another value |
| Query.QueryRoundTrip | payload/pkg_server.c:79-101 | a parameter comes back with its original value when its encoding fits the buffer |
| GrowString.DString.constructor | payload/pkg_server.c:387-392 | an empty terminated string of capacity 4096 |
| GrowString.DString.Append | payload/pkg_server.c:394-407 | the content grows by the text and stays terminated, or stays as it is when a reallocation that is needed fails; the capacity is 4096 or below twice the size used; all reallocations so far copied at most the capacity less 4096 |
| GrowString.AppendAll | payload/pkg_server.c:387-407 | after any run of appends the content is their concatenation, with the same bounds |
| Json.ScanEscaped | payload/pkg_server.c:416-432 | a string scanner stops exactly at the closing quote and gives the text back |
| Json.PrintThenParse | payload/pkg_server.c:416-432 | every value survives compact printing and parsing |
| Browse.JsonEscapeAppend | payload/pkg_server.c:416-432 | the quoted, escaped text is appended |
| Browse.HandleBrowse | payload/pkg_server.c:483-546 | the answer for every request: the shortcuts, an error, or the listing as one JSON document, or the error for a buffer that cannot be allocated |
| Browse.ViewPrinted | payload/pkg_server.c:510-543 | the appended text pieces are the print of the document |
| Browse.ListingReadsBack | payload/pkg_server.c:483-546 | parsing the answer byte by byte gives the path, the parent and the shown entries, whatever bytes the names contain |
| Browse.ShownExactly | payload/pkg_server.c:522-541 | a listing shows everything but ".", ".." and what has no status, in the order of the directory |
| Browse.MountedExactly | payload/pkg_server.c:491-502 | the start page shows the shortcuts that are directories, in their order |
| Browse.ListedEntryLeadsBack | payload/pkg_server.c:507-518 | the parent field of a listed entry's own listing is the directory it was listed in |
| ParentPath.ComputeParentPath | payload/pkg_server.c:437-460 | the in-place computation gives the parent, cut to the buffers |
| ParentPath.ParentDropsLast | payload/pkg_server.c:437-460 | the parent has the components of the path but for the last one |
| ParentPath.ParentUndoesJoin | www/js/browser.js:86-89 | the parent of a joined path is the base, for "/" and every base without a trailing slash |
| ParentPath.ParentShortens | payload/pkg_server.c:437-460 | every non-empty path but "/" has a strictly shorter parent |
| ParentPath.UpEnds | payload/pkg_server.c:437-460 | going up ends at "/" from every absolute path and at the shortcuts from every other one, and stays there |
| Rtld.StemMatch | payload/crt/rtld.c:275-288 | two names match exactly when they are equal without their extensions |
| Rtld.ExtensionsMatch | payload/crt/rtld.c:265-274 | a name with either extension has the name as its stem |
| Rtld.RtldOpen | payload/crt/rtld.c:294-364 | the handle depends on the name without its extension only: the special libraries, the search path with its system modules, or failure |
| Rtld.OpenedExactly | payload/crt/rtld.c:294-364 | byte by byte: the three kernel names and the C library have fixed handles; any other library opens exactly when the first accessible "directory/stem.sprx" that loads exists and every module with its stem loads internally |
| Rtld.InfoHalves | payload/crt/rtld.c:24-24 | kind and symbol index are the halves of the info word |
| RtldLoad.Loader.FindTables | payload/crt/rtld.c:502-518 | the tables named last in the dynamic section |
| RtldImage.TablesAre | payload/crt/rtld.c:502-522 | the tables are the values of the last entries with tags 5 to 8, and the relocation table has the whole 24-byte entries that fit its size |
| RtldImage.EntriesRead | payload/crt/rtld.c:436-459 | the words of a relocation entry, and its name by the symbol and string tables |
| RtldImage.NeededInOrder | payload/crt/rtld.c:538-545 | the needed names are those of the entries with tag 1, in the order of the section |
| RtldImage.SystemIs | payload/crt/rtld.c:86-127 | the search path is the texts of an array of 8-byte pointers and the module table an array of 16-byte records of a pointer and a 32-bit handle, as the last relocation entries for these pointers say |
| RtldImage.SysmoduleOpens | payload/crt/rtld.c:529-536 | the system module library is searched before its own loader is known, stands first in the list, and makes modules loadable when it exports the loader |
| RtldLoad.Loader.DtNeeded | payload/crt/rtld.c:396-413 | a library that opens, by the search path and module table as the image holds them, is put first in the list; one that does not leaves it unchanged |
| RtldLoad.Loader.RGlobDat | payload/crt/rtld.c:436-459 | the slot gets the address from the first library of the list that has one, or 0, which is counted |
| RtldLoad.Loader.RRelative | payload/crt/rtld.c:474-480 | the slot gets base plus addend |
| RtldLoad.Loader.RtldLoad | payload/crt/rtld.c:496-562 | the image after both passes, the library list and the counter, while relocation tables, search path and module table are read from the image being written |
| RtldLoad.TablesReady | payload/crt/rtld.c:486-494 | after the first pass every pointer of the search path and the module table can be followed, and gives the text that its relocation entry names |
| RtldTheorems.EverySlotRelocated | payload/crt/rtld.c:520-557 | with disjoint slots every entry's slot holds its word: base plus addend, or the symbol's address |
| RtldTheorems.Load | payload/crt/rtld.c:496-562 | after the loader has run on a well-formed image with disjoint slots, a 64-bit load from every slot gives the entry's word, all other bytes are as before, and the counter is the number of entries without an address; the library list is that of the needed names, and every symbol's address is from the last needed library that exports it, else from the system module library, else 0 |
| RtldTheorems.NothingElseWritten | payload/crt/rtld.c:520-557 | memory outside the slots is untouched |
| RtldTheorems.SymbolSource | payload/crt/rtld.c:529-545 | an address comes from the last needed library that exports the symbol, else from the system module library, else it is 0 |
| RtldTheorems.UnresolvedCounts | payload/crt/rtld.c:416-459 | the counter is the number of symbolic entries without an address |

## Left out

* Allocation failure, disk errors and sources that change during the copy; results of the system (directory reads, stat, clock, module loading, symbol lookup) are parameters.
* 64-bit overflow in the layout: the builder's methods require that sizes and sums fit (`LayoutFits`), as the code assumes. Block sizes are not restricted otherwise.
* Cycles of directories in the scan: the scanned tree is finite.
* The NPDRM header: its bytes are a parameter of the package build; digests and encryption are not part of the model.
* Mount points, devices, lazy files, changes of permissions and memory mapping in the in-memory file system; paths are given from the root, split into components.
* The warnings, log output and sockets of the server and the loader, the heap list of libraries as linked nodes (it is a sequence), and the privilege part of the loader start.
* Symbol lookup and module loading of the loader as stateful calls: they are functions of their arguments.
* JSON numbers, `true` and `false`: the listing never contains them, and the parser of the model refuses them. A parser that first decodes UTF-8 replaces bytes that are not valid UTF-8.
* Kernel access, text patching, network plumbing, user interface, build scripts and generated byte arrays.
* Mutual exclusion of package workers: the busy status is set only inside the new thread, so the code does not keep it.
- PfsImage.WriteBitmap: the bytes that the fill writes behind its buffer when it does not fit are cut away; the exact condition is `PfsLayout.BitmapFillFits`, and the buffer itself is written to the file correctly.
- PfsImage.MetadataSurvives: for a stream at 0, while the package builder starts behind its header; what is left there is the subject of `PkgEmbedded`.
- PfsImage.InodeTableReadsBack: for a stream at 0; in a package it is `PkgEmbedded.EmbeddedInodeReadsBack`.
- PkgEmbedded.EmbeddedTableSurvives: for the block size that every caller uses, 65536; the general layout results hold for every block size.
- MemFs.FileSystem.CreateNode: the name `__proto__`, which sets the prototype of the JavaScript object of names instead of adding an entry, is treated like every other name.
- MemFs.FileSystem.Rmdir: mount points are left out.
- MemFs.FileSystem.Rename: mount points are left out.
- MemFs.FileSystem.Unlink: mount points are left out.
- MemRooted.RunRootedByText: with links a path's text does not tell where it leads; the theorem for all runs is `MemRooted.RunRooted`.
- MemRooted.AncestorTestExact: a moved node that is itself named "." or "..", which only a link or a rename can make, is outside the lemma; `MemRooted.CutIsHidden` covers it.
- MemFile.MemFile.Write: the hand-over of the caller's buffer (`canOwn`) is left out.
- Utf8.UTF8ArrayToString: the native `TextDecoder`, which the code uses for inputs longer than 16 bytes, is left out.
- Getdents.DirStream.Getdents: the listing is a value, not the heap directory of the file system.
- Getdents.NameReadIsName: longer names are cut by the code to whole code points of at most 255 bytes; the cut name is what is read.
- PfsFind.DescendIsRoute: without unique sibling names only the first child with a name is entered, so another node with the same path is not found.
- Sfo.BuildSfo: an integer field takes an integer; numeric strings and other JSON values that `int` accepts are errors of the model, and texts are byte strings.
- Sfo.ParseParamSfo: keys and values are byte strings, without text decoding and without property names that have a meaning of their own in JavaScript objects.
- SfoTheorems.WriteThenReadField: files of 4 GiB and more are outside the theorem, because the reader adds offsets in 32 bits.
- Query.QueryRoundTrip: a value whose encoding does not fit is cut before it is decoded; the contract of the lookup says what is left then.
- Browse.HandleBrowse: reallocations succeed; the cut of joined paths at 1200 bytes only reaches `stat`, whose outcome is a parameter.
- Rtld.RtldOpen: the file name buffer of 255 bytes is left out; file names are not cut.
- Rtld.OpenedExactly: likewise for file names of any length.
- PkgContents.FileIsPacked: for the block size that every caller uses, 65536; for the others the exact condition is `PkgBuilder.PackageFileReadsBack`.
- MemLinks.PathMeans: paths are lists of parts without slashes, as splitting a path gives them; mount points are left out.
