# BackupReader catalog model

BackupReader reads Windows NTBackup files, which are written in the
Microsoft Tape Format (MTF 1.00a). It presents their contents as a catalog
tree: a Root for the tape, Sets under it, Volumes under the sets, Folders
under the volumes and Files under the folders. This project models three
parts of it:

- `CBackupReader.ReadCatalog`. It reads the media header and the soft
  filemark, then loops over the descriptor blocks (DBLKs) until `EOTM`, a
  zero block type or a cancel request. A set block becomes a node under the
  root, a volume block a node under the last set, a directory block one
  folder node per name under the last volume, and a file block one file
  node per name under the last folder. Other blocks, and directory or file
  blocks with no name stream, make no node. Progress events fire as the
  stream moves on.
- `CBackupReader`'s `Open`, `CancelRead` and constructors.
- `CCatalogNode`: its constructors, the `Add*` methods, the binary catalog
  file (`SaveCatalog`, `SaveNode`, `ReadCatalog`, `ReadNode`,
  `ReadBackupFilename`), and `ExtractTo`.

The modules:

- `Wrappers`: `Option`, `Result` and the exceptions that the .NET code can
  raise, as `Fault` values.
- `Utf8`, `NetBinary`: `BinaryWriter`/`BinaryReader`. This covers
  little-endian Int32/Int64, the 7-bit encoded length prefix and
  length-prefixed UTF-8 strings, with their round trips.
- `Mtf`: the block types, the name-in-stream bit and the string types. It
  also has the ASCII and UTF-16LE decoders and the `Substring(0, Length - 1)`
  step.
- `CatalogTree`: a node's value as the catalog file stores it, and the
  pre-order record layout. The layout's round trip is proved.
- `Catalog`: `CCatalogNode` as a heap class. `SaveNode` and `ReadNode` are
  proved against the layout of `CatalogTree`.
- `CatalogBuilder`: `ReadCatalog` as a function over an arena of entries.
  Its dispatch, its loop `RunFrom`, its stopping condition, the hierarchy it
  builds, its growth and its progress reports are stated here.
- `BackupReader`: `CBackupReader` as a class with the catalog loop as a
  `while` loop over `CCatalogNode` heap objects. It is proved to build,
  node for node, what `CatalogBuilder.ReadCatalog` builds. It fails with the
  same fault, and on success it leaves the same `mLastPos`, progress events
  and cancel flag.
- `Extraction`: `ExtractTo` as a function from a tree to the log of
  file-system effects it performs.

Cancellation from another thread is a schedule `cancelAt`: CancelRead is
called once that many loop passes are done, or never for `None`. The
backup stream is a sequence of already decoded blocks with a cursor.

## Model

| member | source | states |
|---|---|---|
| NetBinary.Int32RoundTrip | BackupReader/CCatalogNode.cs:211-227 | Reading an Int32 back from the four little-endian bytes written for it gives the same value and leaves the rest of the file untouched |
| NetBinary.Int64RoundTrip | BackupReader/CCatalogNode.cs:213-226 | The same for the Int64 offset and its eight bytes |
| NetBinary.LittleEndianRoundTrip | BackupReader/CCatalogNode.cs:211-214 | Decoding n little-endian bytes of a value below 256^n gives the value back |
| NetBinary.ReadInt32 | BackupReader/CCatalogNode.cs:224-227 | The read succeeds exactly when four bytes remain, and it consumes exactly four |
| NetBinary.ReadInt64 | BackupReader/CCatalogNode.cs:226 | The read succeeds exactly when eight bytes remain, and it consumes exactly eight |
| NetBinary.SevenBitRoundTrip | BackupReader/CCatalogNode.cs:159-177 | The 7-bit encoded length prefix of any non-negative Int32 reads back as that value and consumes exactly its bytes |
| NetBinary.Read7BitEncodedInt | BackupReader/CCatalogNode.cs:177 | An empty input is an end-of-stream fault, a single byte below 0x80 is its own value, and five bytes in a row with the high bit set are a format error; a successful read consumes at least one byte |
| NetBinary.SevenBitTooLong | BackupReader/CCatalogNode.cs:177 | From byte k of a length prefix on, 5 - k further bytes with the high bit set are a format error |
| NetBinary.StringBytes | BackupReader/CCatalogNode.cs:159 | Write(string) ends with the string's UTF-8 bytes after a non-empty length prefix; the empty string is the single byte 0 |
| NetBinary.ReadString | BackupReader/CCatalogNode.cs:177 | A bad length prefix fails with its fault, a negative length is an invalid-length fault, and a length past the end of the file is an end-of-stream fault; a successful read consumes at least one byte |
| NetBinary.StringRoundTrip | BackupReader/CCatalogNode.cs:159-177 | A string written with its length prefix reads back as the same string whenever its UTF-8 form fits an Int32 length |
| Utf8.DecodeEncode | BackupReader/CCatalogNode.cs:212-225 | Decoding the UTF-8 encoding of any string gives that string back |
| Utf8.DecodeFirstOfEncoded | BackupReader/CCatalogNode.cs:212-225 | The first character decoded from an encoded character with anything after it is that character, and it consumes exactly its encoding's length |
| Mtf.AnsiString | BackupReader/CBackupReader.cs:88-89 | ASCIIEncoding.GetString keeps one character per byte: bytes below 0x80 as themselves, every other byte as '?' |
| Mtf.UnicodeStringOfUtf16Le | BackupReader/CBackupReader.cs:95-96 | UnicodeEncoding.GetString turns the UTF-16LE bytes of a string of BMP characters back into that string |
| Mtf.UnicodeString | BackupReader/CBackupReader.cs:95-96 | UnicodeEncoding.GetString gives at most one character per byte and at least one per four bytes |
| Mtf.DropLast | BackupReader/CBackupReader.cs:90 | Substring(0, Length - 1) succeeds exactly on a non-empty name, giving the name without its last character; on an empty name it fails, and the fault is ArgumentOutOfRange |
| Mtf.DecimalRoundTrip | BackupReader/CCatalogNode.cs:77 | The decimal digits of a data set number read back as that number |
| CatalogTree.HeaderRoundTrip | BackupReader/CCatalogNode.cs:208-227 | A node record's kind, name, offset and child count read back as written, with the rest of the file after them |
| CatalogTree.DecodeHeader | BackupReader/CCatalogNode.cs:224-227 | A header takes at least 17 bytes; its kind is the first Int32 and its name the string after it; fewer than four bytes is an end-of-stream fault |
| CatalogTree.NodeBytes | BackupReader/CCatalogNode.cs:208-219 | A node's record starts with its header, and is just the header when the node has no children |
| CatalogTree.NodeFrom | BackupReader/CCatalogNode.cs:221-236 | A record decodes to a node with the header's kind, name and offset and Count(count) children. A header that cannot be read fails the record with its fault |
| CatalogTree.ChildrenFrom | BackupReader/CCatalogNode.cs:230-235 | n child records decode to exactly n trees, the first being the first record. A first record that cannot be read fails the whole list with its fault |
| CatalogTree.NodeRoundTripWith | BackupReader/CCatalogNode.cs:208-236 | For any header writer and reader that round-trip, ReadNode's decoding of SaveNode's pre-order bytes gives back the whole subtree, with the following bytes left over |
| CatalogTree.ChildrenRoundTrip | BackupReader/CCatalogNode.cs:217-218 | The children's records from child i on read back as exactly those children, in order |
| CatalogTree.ChildrenSnoc | BackupReader/CCatalogNode.cs:230-235 | A pass of the for loop in ReadNode extends the children read so far by the record that follows them |
| CatalogTree.ChildrenFail | BackupReader/CCatalogNode.cs:230-235 | A child record that cannot be read makes the whole children list fail with that record's fault |
| CatalogTree.NoChildrenForNonPositiveCount | BackupReader/CCatalogNode.cs:227-230 | A stored child count of zero or less makes the for loop read no children, so the record ends after its header |
| CatalogTree.NodeRoundTrip | BackupReader/CCatalogNode.cs:208-236 | With the BinaryWriter/BinaryReader header layout, DecodeNode(EncodeNode(t) + rest) gives t and rest |
| CatalogTree.CatalogFileRoundTrip | BackupReader/CCatalogNode.cs:153-206 | Of the bytes SaveCatalog writes, ReadBackupFilename reads the backup file name and ReadCatalog reads the root's whole tree |
| Catalog.CatalogNode.constructor | BackupReader/CCatalogNode.cs:55-63 | A new root has an empty name, kind Root, offset 0, no parent, no children and no descriptor block |
| Catalog.CatalogNode.Of | BackupReader/CCatalogNode.cs:65-73 | A node made from a descriptor block has the given name and kind, the block's start position as its offset, no parent and no children |
| Catalog.CatalogNode.AddSet | BackupReader/CCatalogNode.cs:75-82 | A new Set node named "Set: number - name" is appended to the children, with this node as its parent and the block's start as its offset; nothing else changes |
| Catalog.CatalogNode.AddVolume | BackupReader/CCatalogNode.cs:84-90 | A new Volume node named after the device is appended to the children, with this node as its parent |
| Catalog.CatalogNode.AddFolder | BackupReader/CCatalogNode.cs:92-98 | A new Folder node with the given name is appended to the children, with this node as its parent |
| Catalog.CatalogNode.AddFile | BackupReader/CCatalogNode.cs:100-106 | A new File node with the given name is appended to the children, with this node as its parent |
| Catalog.CatalogNode.SaveNode | BackupReader/CCatalogNode.cs:208-219 | It appends exactly the pre-order record bytes of the tree the node holds: its header, then each child's record in list order |
| Catalog.CatalogNode.WriteHeader | BackupReader/CCatalogNode.cs:211-214 | The four writes append exactly one header's bytes |
| Catalog.CatalogNode.ReadNode | BackupReader/CCatalogNode.cs:221-236 | It succeeds exactly when the record decoder does, with the same fault otherwise. On success the node's fields are the decoded kind, name and offset, the new children hold the decoded subtrees, and the reader is past the record. The nodes the read creates have no parent and no descriptor block; this node keeps its own |
| Catalog.CatalogNode.ReadHeader | BackupReader/CCatalogNode.cs:224-227 | The four reads succeed exactly when the header decoder does, and consume the same bytes |
| Catalog.CatalogNode.ReadChild | BackupReader/CCatalogNode.cs:232-234 | One pass of the for loop appends a new empty node to the children, then reads the next record into it as NodeFrom decodes it. On success the node holds the decoded subtree, and every node made has no parent and no descriptor block |
| Catalog.CatalogNode.ReadChildren | BackupReader/CCatalogNode.cs:230-235 | The for loop reads Count(count) children exactly as ChildrenFrom decodes them, appending one fresh node per child; a failing child ends it with that child's fault. Every node the loop creates has no parent and no descriptor block |
| Catalog.CatalogNode.SaveCatalog | BackupReader/CCatalogNode.cs:153-166 | The file is exactly the backup file name followed by the root's record |
| Catalog.CatalogNode.ReadBackupFilename | BackupReader/CCatalogNode.cs:171-183 | The result is the leading string of the file, or the read's fault |
| Catalog.CatalogNode.ReadCatalog | BackupReader/CCatalogNode.cs:188-206 | It succeeds exactly when the file decodes, failing with the same fault otherwise. On success it returns a root that holds the decoded tree, and neither the root nor any node below it has a parent or a descriptor block |
| Catalog.Writer.WriteInt32 | BackupReader/CCatalogNode.cs:211 | BinaryWriter.Write(int) appends the value's four little-endian bytes |
| Catalog.Writer.WriteString | BackupReader/CCatalogNode.cs:212 | BinaryWriter.Write(string) appends the length-prefixed UTF-8 bytes |
| Catalog.Writer.WriteInt64 | BackupReader/CCatalogNode.cs:213 | BinaryWriter.Write(long) appends the value's eight little-endian bytes |
| Catalog.Reader.ReadInt32 | BackupReader/CCatalogNode.cs:224 | BinaryReader.ReadInt32 is the Int32 decoder on the bytes not yet read |
| Catalog.Reader.ReadString | BackupReader/CCatalogNode.cs:225 | BinaryReader.ReadString is the string decoder on the bytes not yet read |
| Catalog.Reader.ReadInt64 | BackupReader/CCatalogNode.cs:226 | BinaryReader.ReadInt64 is the Int64 decoder on the bytes not yet read |
| Catalog.SetName | BackupReader/CCatalogNode.cs:77 | A set's name starts with "Set: ", ends with the data set name, and is 8 characters longer than the number's digits and the name together |
| Catalog.SetNameInjective | BackupReader/CCatalogNode.cs:77 | Two sets with the same node name have the same data set number and the same data set name |
| CatalogBuilder.AddFolder | BackupReader/CBackupReader.cs:91 | Adding a folder under the last volume succeeds exactly when there is a last volume, and appends the folder as that volume's newest child; otherwise the fault is a null dereference |
| CatalogBuilder.AddFile | BackupReader/CBackupReader.cs:127 | Adding a file under the last folder succeeds exactly when there is a last folder, and appends the file as that folder's newest child; otherwise the fault is a null dereference |
| CatalogBuilder.Directory | BackupReader/CBackupReader.cs:75-111 | A DIRB block without the path-in-stream bit fails exactly on an empty directory name (the fault is ArgumentOutOfRange) or a missing last volume (a null dereference). Otherwise it adds one folder named without its last character and makes it the last folder. With the bit it fails exactly when the PNAM foreach does, with its fault: when a PNAM name is empty, or there is a PNAM name and no last volume. On success the last folder moves only if a folder was added |
| CatalogBuilder.File | BackupReader/CBackupReader.cs:112-143 | A FILE block keeps the last set, volume and folder. Without the name-in-stream bit it fails, with a null dereference, exactly when there is no last folder, and otherwise adds exactly one file named as the block under it. With the bit it succeeds exactly when there is a last folder or no FNAM name, and otherwise fails with a null dereference |
| CatalogBuilder.Dispatch | BackupReader/CBackupReader.cs:63-143 | An SSET block adds a set under the root and becomes the last set. A VOLB block fails with a null dereference when no set has been seen; otherwise it adds a volume under the last set and becomes the last volume. A DIRB block is exactly Directory and a FILE block exactly File, with or without the name-in-stream bit; any other block adds nothing |
| CatalogBuilder.Start | BackupReader/CBackupReader.cs:50-53 | The catalog starts as a single Root entry named after the media, with the tape header block and its start as offset; there is no last set, volume or folder, and the hierarchy holds |
| CatalogBuilder.Adopt | BackupReader/CCatalogNode.cs:75-106 | An Add* call appends one entry with the given kind, name and block, the block's start as offset and the parent's index; the parent gains it as its last child and no other entry changes |
| CatalogBuilder.StreamName | BackupReader/CBackupReader.cs:84-99 | A stream gives a name exactly when its ID matches and the block's string type is ANSI or Unicode; an ANSI name has one character per byte |
| CatalogBuilder.FoldersFrom | BackupReader/CBackupReader.cs:82-102 | On success the PNAM foreach keeps the catalog well formed and the last set, volume and folder unchanged, and only adds entries |
| CatalogBuilder.FilesFrom | BackupReader/CBackupReader.cs:119-137 | On success the FNAM foreach keeps the catalog well formed and the last set, volume and folder unchanged, and only adds entries |
| CatalogBuilder.Step | BackupReader/CBackupReader.cs:60-154 | One pass fails exactly when Dispatch fails on the next block, with its fault. Otherwise the catalog is Dispatch's, and the cursor and the pass count move on by one |
| CatalogBuilder.Advanced | BackupReader/CBackupReader.cs:146-154 | After a block ending at pos: the cursor and the pass count move on by one. If pos is past mLastPos + mIncrement, mLastPos becomes pos and its percentage is reported; otherwise both stay |
| CatalogBuilder.RunFrom | BackupReader/CBackupReader.cs:56-155 | When the loop condition fails the state is returned as it is; a successful run leaves a well-formed catalog and the cursor within the stream, no earlier than it started |
| CatalogBuilder.ReadCatalog | BackupReader/CBackupReader.cs:38-158 | An empty stream is an end-of-stream fault. A first block that is not a media header, or a second that is not a soft filemark, is an invalid cast; a missing second block is an end-of-stream fault. A successful read ends past the two header blocks and within the stream |
| CatalogBuilder.FoldersFromSucceeds | BackupReader/CBackupReader.cs:82-102 | The foreach over PNAM streams succeeds exactly when no PNAM name is empty, and there is a last volume or no PNAM name at all |
| CatalogBuilder.FoldersFromNames | BackupReader/CBackupReader.cs:82-102 | On success it adds one folder per PNAM stream, in stream order, under the last volume, each named as its decoded name without the last character; earlier entries only gain children |
| CatalogBuilder.FoldersFromAdopts | BackupReader/CBackupReader.cs:82-102 | On success the result is the last volume adopting the stripped PNAM names in order |
| CatalogBuilder.FilesFromSucceeds | BackupReader/CBackupReader.cs:119-137 | The foreach over FNAM streams succeeds exactly when there is a last folder or there is no FNAM name |
| CatalogBuilder.FilesFromNames | BackupReader/CBackupReader.cs:119-137 | On success it adds one file per FNAM stream, in stream order, under the last folder, each named as its decoded name |
| CatalogBuilder.FilesFromAdopts | BackupReader/CBackupReader.cs:119-137 | On success the result is the last folder adopting the FNAM names in order |
| CatalogBuilder.AdoptAllAppends | BackupReader/CBackupReader.cs:91-133 | Adding several nodes under one parent appends one entry per name, in order, and leaves earlier entries only gaining children |
| CatalogBuilder.DispatchGrows | BackupReader/CBackupReader.cs:60-143 | One block never changes or removes an existing node, except by adding children; every node it adds carries that block |
| CatalogBuilder.DispatchHierarchy | BackupReader/CBackupReader.cs:63-143 | One block keeps the hierarchy: every node hangs under a node of the kind above it and is among that node's children, and the last set, volume and folder are the newest nodes of their kinds |
| CatalogBuilder.DirectoryHierarchy | BackupReader/CBackupReader.cs:75-111 | The same for a DIRB block |
| CatalogBuilder.FileHierarchy | BackupReader/CBackupReader.cs:112-143 | The same for a FILE block |
| CatalogBuilder.AdoptShape | BackupReader/CCatalogNode.cs:75-106 | Adding a node under a parent of the kind above it keeps every node placed under a parent of the right kind and listed among that parent's children |
| CatalogBuilder.NewestKept | BackupReader/CBackupReader.cs:67-110 | Adding nodes of other kinds leaves the newest node of a kind unchanged |
| CatalogBuilder.RootChildrenAreSets | BackupReader/CBackupReader.cs:63-68 | In a well-shaped catalog the root's children are exactly the set nodes, in the order they were read |
| CatalogBuilder.StepGrows | BackupReader/CBackupReader.cs:60-154 | One pass only appends entries, each made from the block it read, and only appends progress reports |
| CatalogBuilder.RunStops | BackupReader/CBackupReader.cs:56-57 | The loop ends at EOTM, at a zero block type or once cancelled, and not before: every block it read was of another type and read before the cancel |
| CatalogBuilder.RunGrows | BackupReader/CBackupReader.cs:57-155 | The loop only adds nodes and progress reports. Every node it adds carries a block it read |
| CatalogBuilder.RunHierarchy | BackupReader/CBackupReader.cs:57-155 | The loop keeps the hierarchy |
| CatalogBuilder.CancelledPrefix | BackupReader/CBackupReader.cs:160-166 | Whenever the uncancelled read succeeds, the cancelled one succeeds too and yields a prefix of it: the nodes read so far, a prefix of the reports and no further position. The nodes already read stay available |
| CatalogBuilder.CatalogRead | BackupReader/CBackupReader.cs:38-158 | A catalog read succeeds with a Root of the media header block, the set/volume/folder/file hierarchy, only blocks from the stream, and the loop stopped for its reason |
| CatalogBuilder.TreeOf | BackupReader/CCatalogNode.cs:208-219 | The subtree at an entry has the entry's kind, name and offset, and one child per child entry |
| CatalogBuilder.PercentBounds | BackupReader/CBackupReader.cs:153 | A position within the stream reports a percentage from 0 to 100 |
| CatalogBuilder.PercentMono | BackupReader/CBackupReader.cs:153 | A later position never reports a smaller percentage |
| CatalogBuilder.StepProgress | BackupReader/CBackupReader.cs:150-154 | One pass fires a report exactly when the block read ends past mLastPos + mIncrement. Then mLastPos becomes that position and the report is its percentage; otherwise mLastPos and the reports stay as they were. The reports stay a non-decreasing run of percentages |
| CatalogBuilder.RunProgress | BackupReader/CBackupReader.cs:57-155 | Over the whole loop mLastPos never moves back, the reports stay non-decreasing, and there is at most one report per block read |
| CatalogBuilder.StepUp | BackupReader/CBackupReader.cs:150-153 | With mIncrement = Length / 100, a position past mLastPos + mIncrement is at least one percentage point above mLastPos |
| CatalogBuilder.StepRises | BackupReader/CBackupReader.cs:150-154 | With mIncrement = Length / 100, one pass keeps the reports strictly increasing and between 1 and mLastPos's percentage |
| CatalogBuilder.RunRises | BackupReader/CBackupReader.cs:56-155 | With mIncrement = Length / 100, each report of the loop is above the ones before it, and they are all between 1 and mLastPos's percentage |
| CatalogBuilder.CatalogProgress | BackupReader/CBackupReader.cs:150-154 | After Open (mIncrement = Length / 100, mLastPos = 0), a catalog read reports a strictly increasing run of percentages from 1 to 100, at most one per block after the header |
| BackupReader.BlockStream.PeekNextBlockType | BackupReader/CBackupReader.cs:56 | The type of the next block, 0 at the end of the stream |
| BackupReader.BlockStream.ReadBlock | BackupReader/CBackupReader.cs:60 | ReadDBLK returns the next block and moves past it, or fails at the end of the stream |
| BackupReader.BlockStream.Pos | BackupReader/CBackupReader.cs:150-152 | BaseStream.Position is the end of the last block read, 0 before the first. In a stream whose blocks end in order inside it, the position lies inside the stream and the next block does not end before it |
| BackupReader.Attach | BackupReader/CBackupReader.cs:66-141 | Each Add* call on the node for an entry makes the heap represent that entry adopting the new node |
| BackupReader.FolderFromStream | BackupReader/CBackupReader.cs:84-101 | One PNAM stream on the heap does what one step of FoldersFrom does on the arena, with the same fault |
| BackupReader.AddFolders | BackupReader/CBackupReader.cs:80-103 | The foreach over PNAM streams fails exactly when FoldersFrom does, with the same fault. Otherwise the heap represents FoldersFrom's catalog, and the folder last made is returned |
| BackupReader.FileFromStream | BackupReader/CBackupReader.cs:121-136 | One FNAM stream on the heap does what one step of FilesFrom does |
| BackupReader.AddFiles | BackupReader/CBackupReader.cs:117-138 | The foreach over FNAM streams fails exactly when FilesFrom does, with the same fault. Otherwise the heap represents FilesFrom's catalog |
| BackupReader.Directory | BackupReader/CBackupReader.cs:75-111 | The DIRB branch on the heap fails exactly when CatalogBuilder.Directory does. Otherwise it represents its catalog and returns the node for its last folder, or null |
| BackupReader.File | BackupReader/CBackupReader.cs:112-143 | The FILE branch on the heap fails exactly when CatalogBuilder.File does. Otherwise it represents its catalog |
| BackupReader.AddBlock | BackupReader/CBackupReader.cs:63-143 | One block on the heap fails exactly when Dispatch does. Otherwise the heap nodes, the root and the last set, volume and folder track Dispatch's catalog |
| BackupReader.EntryBlock | BackupReader/CBackupReader.cs:75-143 | The DIRB and FILE branches on the heap fail exactly as Dispatch does, with its fault. Otherwise the heap tracks Dispatch's catalog: the last set and volume stay, and the last folder is the folder a DIRB block made last |
| BackupReader.HeapHolds | BackupReader/CCatalogNode.cs:208-219 | Each heap node a catalog read builds holds the subtree TreeOf gives for its entry, so SaveCatalog on the root writes that tree |
| BackupReader.HeapPlaced | BackupReader/CCatalogNode.cs:79-104 | In a read catalog every node but the root has a parent of the kind above it, and is among that parent's children |
| BackupReader.BackupReader.constructor | BackupReader/CBackupReader.cs:187-189 | A reader with no stream, zero mIncrement and mLastPos, not cancelled and no progress events |
| BackupReader.BackupReader.Opened | BackupReader/CBackupReader.cs:191-194 | The constructor with a file name opens the stream at its first block, with mIncrement one hundredth of the length and mLastPos 0 |
| BackupReader.BackupReader.Open | BackupReader/CBackupReader.cs:171-177 | A fresh stream at the first block of the file, mIncrement = Length / 100, mLastPos = 0 and the cancel flag cleared |
| BackupReader.BackupReader.CancelRead | BackupReader/CBackupReader.cs:163-166 | Sets the cancel flag and nothing else |
| BackupReader.BackupReader.Advance | BackupReader/CBackupReader.cs:60-143 | Reads one block and adds it as Dispatch does, failing with Dispatch's fault |
| BackupReader.BackupReader.Report | BackupReader/CBackupReader.cs:150-154 | The progress check moves mLastPos and appends a progress event exactly as Advanced does on the loop state |
| BackupReader.BackupReader.Pass | BackupReader/CBackupReader.cs:60-154 | One loop pass is Step on the loop state: the same fault, or the same next state, with the next block type peeked |
| BackupReader.BackupReader.Turn | BackupReader/CBackupReader.cs:57-166 | A pass, with CancelRead called by the other thread on schedule; the cancel flag then says whether that many passes were scheduled |
| BackupReader.BackupReader.CatalogLoop | BackupReader/CBackupReader.cs:56-155 | The while loop ends as RunFrom does: the same fault, or RunFrom's final state, with the heap representing its catalog and the cancel flag as scheduled |
| BackupReader.BackupReader.Header | BackupReader/CBackupReader.cs:43-47 | The media header and the soft filemark, each cast to its class, fail exactly as the start of CatalogBuilder.ReadCatalog does |
| BackupReader.BackupReader.Root | BackupReader/CBackupReader.cs:49-53 | The root node, named after the media, stands for the starting catalog with no last set, volume or folder |
| BackupReader.BackupReader.BuildCatalog | BackupReader/CBackupReader.cs:50-157 | After the two header blocks: it succeeds exactly when RunFrom does from the starting catalog, with the same fault otherwise. On success the heap nodes are all new, they represent RunFrom's catalog with the root first, and the stream, mLastPos, the progress events and the cancel flag end as that run does |
| BackupReader.BackupReader.ReadCatalog | BackupReader/CBackupReader.cs:38-158 | It succeeds exactly when CatalogBuilder.ReadCatalog does on the blocks left in the stream, with the same fault otherwise. On success the heap nodes are all new and represent that catalog with the returned root first. The stream, mLastPos, the progress events and the cancel flag end as that run does. Without an open stream it is a null dereference |
| Extraction.Normalize | BackupReader/CCatalogNode.cs:110-112 | The target path gets a trailing '\' exactly when it lacks one; an empty path is an index-out-of-range fault |
| Extraction.NormalizeIdempotent | BackupReader/CCatalogNode.cs:110-112 | Normalizing a normalized path changes nothing, so the children of a Volume see the same target |
| Extraction.ExtractTo | BackupReader/CCatalogNode.cs:108-148 | Root and Set nodes throw before any effect. A Volume first creates the target, a Folder first creates target + name, and a File first creates the target. Nodes of other kinds do nothing |
| Extraction.ExtractFile | BackupReader/CCatalogNode.cs:130-145 | A File creates the directory and the output file before reading its block, and succeeds exactly when the block reads as a FILE block |
| Extraction.Writes | BackupReader/CCatalogNode.cs:137-143 | Every write goes to the output file |
| Extraction.ExtractedFileContents | BackupReader/CCatalogNode.cs:130-145 | A File whose block is a FILE block is extracted without fault, and its file ends up holding exactly its STAN streams' data in order |
| Extraction.WrittenAppend | BackupReader/CCatalogNode.cs:137-143 | What a file holds after two runs of writes is what the first left, then what the second wrote |
| Extraction.WrittenWrites | BackupReader/CCatalogNode.cs:137-143 | The writes for a stream list leave in the file the concatenated data of its STAN streams |
| Extraction.ExtractSucceeds | BackupReader/CCatalogNode.cs:108-148 | An extraction throws nothing exactly when the target is non-empty and the subtree it walks has no Root or Set node and no File whose block fails to read as a FILE block |
| Extraction.ExtractAllSucceeds | BackupReader/CCatalogNode.cs:121-128 | The foreach over the children succeeds exactly when every child is extractable |
| Extraction.ExtractUnder | BackupReader/CCatalogNode.cs:118-145 | Every effect path of an extraction starts with the normalized target text, and everything below a Folder starts with target + name. This is about path strings, with FullName taken as the identity |
| Extraction.ExtractAllUnder | BackupReader/CCatalogNode.cs:121-128 | The path of every effect of extracting the children starts with the target string they are given |
| Extraction.ExtractAll | BackupReader/CCatalogNode.cs:121-128 | The children are extracted in order: the first child's effects come first, and a first child that throws ends the walk with its outcome |
| Extraction.ChildTarget | BackupReader/CCatalogNode.cs:118-129 | The directory the children are extracted into: the normalized target itself for a Volume, and the normalized target followed by the name for a Folder |
| Extraction.ExtractToDirectory | BackupReader/CCatalogNode.cs:118-129 | A Volume or a Folder creates its directory and then runs the foreach over its children with that directory as their target |
| Extraction.ExtractChildren | BackupReader/CCatalogNode.cs:118-129 | In a Volume or a Folder whose earlier children threw nothing, child i is extracted into the directory just created, and its effects follow that directory and the earlier children's effects. When child i is the first to throw, the extraction ends with its fault right after its effects |
| Extraction.ExtractChildrenLogs | BackupReader/CCatalogNode.cs:118-129 | When no child throws, extracting a Volume or a Folder is exactly its directory followed by every child's effects into that directory, in order |
| Extraction.ExtractAllEach | BackupReader/CCatalogNode.cs:121-128 | While the children before child i threw nothing, child i is extracted into the same target, after their effects; when child i is the first to throw, the foreach ends with its fault right after its effects |
| Extraction.ExtractAllLogs | BackupReader/CCatalogNode.cs:121-128 | When no child throws, the foreach is exactly the children's effects, each into the same target, in order |
| Extraction.ExtractAllFold | BackupReader/CCatalogNode.cs:121-128 | The foreach over the children is the fold of their separate outcomes, stopping at the first fault |
| Extraction.FoldEach | BackupReader/CCatalogNode.cs:121-128 | In the fold of outcomes, outcome i's effects follow those of the clean outcomes before it, and the first fault ends the fold right after its effects |
| Extraction.FoldAll | BackupReader/CCatalogNode.cs:121-128 | A fold in which nothing throws performs every outcome's effects, in order |
| Extraction.StanData | BackupReader/CCatalogNode.cs:137-143 | Streams with no STAN stream give no data; a single STAN stream gives its data |
| Extraction.Written | BackupReader/CCatalogNode.cs:137-143 | The bytes a log writes to a path: none without a write to it, and a single write's data. It is the file's contents only when the file is created once before its writes, since FileMode.Create truncates |

## Left out

- ReadDBLK's decoding of descriptor blocks and data streams is not part of this model. The stream hands out blocks that are already decoded, with their type, start and end positions, attributes, string type, names and streams.
- The cast of each block in the loop (CBackupReader.cs lines 65, 71, 77 and 114) is not modelled as a separate failure. A block of a given type is taken to be of the matching class. The blockType the loop dispatches on is the peeked type, and that is the type of the block read next.
- File and stream I/O is left out: opening, Seek, Close (CBackupReader.cs lines 182-185), the finalizer (lines 196-199) and the FileStream objects. A catalog file is a byte sequence, and an extraction is a log of effects.
- BackupReader.BackupReader.ReadCatalog: the progress value of line 153 is a float computation truncated to int. The model reports the integer `position * 100 / length`, and 0 for an empty stream, where the float division would give infinity or NaN.
- OnProgressChange is taken to have a subscriber: the events fired are recorded in order in `progress`. With no subscriber the event would be null and line 153 would throw.
- Cancellation from another thread is a schedule (`cancelAt`). CancelRead takes effect between loop passes; races inside a pass are not modelled.
- BackupReader.BackupReader.ReadCatalog: after an exception, the state of the partly built nodes and of the stream is not specified.
- Catalog.CatalogNode.ReadNode: after a failed read, the fields and children of the partly read nodes and the reader's position are not specified. Parent links and descriptor blocks are not stored in the catalog file; after a successful read every node read has neither.
- Extraction.ExtractTo: `DirectoryInfo.FullName` is taken to be the path passed to CreateDirectory, as `target + name` with no further normalisation. The source gives no such containment: a relative target becomes absolute, and a folder named `..` in the backup resolves above the target, so files can be written outside it. Directory creation is assumed to succeed; I/O failures are not modelled.
- ASCIIEncoding and UnicodeEncoding: the decoders are modelled for the inputs the round trips need. Unpaired UTF-16 surrogates and odd trailing bytes decode in a simplified way. The UTF-8 decoder of BinaryReader is simplified on invalid input.
- CatalogNode.ToString (CCatalogNode.cs lines 238-241) is left out: it only formats text for display.
- The Int32 stored for a node's kind is written and read as a plain integer. Reading does not check that it names an ENodeType, as the source does not.
- Mtf.DropLast: names are sequences of Unicode scalars, while .NET strings are sequences of UTF-16 code units. Substring(0, Length - 1) on a name that ends in a supplementary character therefore differs: the source keeps a lone high surrogate, and the model drops the whole character. SaveCatalog would then throw when it encodes that surrogate to UTF-8, while the model's save succeeds.
