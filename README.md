# SimpleFileSystem in Dafny

A model of `SimpleFileSystem`, the in-memory inode file system of
`main.cpp`. Its state is:

- a map from ids to inodes;
- a working directory;
- a counter for the next id;
- a bounded history of command lines.

The state is persisted as one binary file.

The model has these modules:

- `INodeTree` (tree.dfy): the inode record and the tree invariant `ValidStore`:
  - the root is its own parent;
  - every other entry has a directory parent with a smaller id, which lists it;
  - files have no children;
  - sibling names are distinct.

  It also holds subtrees, absolute paths, child lookup by name and the recursive listing.
- `StoreOps` (store_ops.dfy): what each mutator does to the store, written as pure functions. Each comes with a proof that it keeps `ValidStore` and changes only what the source changes.
- `LittleEndian` and `Codec` (little_endian.dfy, codec.dfy): the byte format of the persisted file, with its round trip. Loading what was saved gives back the same store.
- `CommandHistory` (history.dfy): the history bounded at 100 lines.
- `FileSystem` (filesystem.dfy): the class `SimpleFileSystem`. It has the fields `inodes`, `current`, `nextId` and `history`, with one method per operation of the source. Each method updates the fields in place and is proved against the `StoreOps` functions. The object invariant `Valid()` is preserved.
  - The `rm` and `find` loops are kept as explicit worklist loops over a stack.
  - `getAbsolutePath` and `saveToDisk`/`loadFromDisk` are loops over the same data as in the source.
- `RmFinding` (rm_finding.dfy): `rm` as it is written, compared with the intended removal (see Findings).

Where a reading of the design might differ, the model follows the code:

- `cd ""` leaves the working directory unchanged. Only `cd` without an argument goes to the root.
- Loading raises the id counter above every loaded id, but never lowers it below its value before the load.
- `rm` refuses a non-empty directory. So its deletion loop erases a single entry in practice. The loop is still proved for whole subtrees.
- `touch` on an existing name only stamps that child, whether it is a file or a directory.

## Model

| member | source | states |
|---|---|---|
| LittleEndian.DecodeEncodeUnsigned | main.cpp:102-103 | an unsigned count written in n little-endian bytes reads back as itself |
| LittleEndian.EncodeDecodeUnsigned | main.cpp:148-149 | any n bytes are the encoding of the number they decode to, so decoding is injective |
| LittleEndian.DecodeSigned | main.cpp:155 | a non-empty field decodes to a value in the signed range of its width |
| LittleEndian.DecodeEncodeSigned | main.cpp:108 | a signed field (id, size, time, child id, parent) written in two's complement reads back as itself |
| Codec.ReadStringEncoded | main.cpp:157-160 | a length-prefixed name or permission string reads back as itself, leaving the bytes after it |
| Codec.ReadIdsEncoded | main.cpp:172-176 | a count-prefixed list of child ids reads back as the same list in the same order |
| Codec.ReadINodeEncoded | main.cpp:152-178 | one record reads back as the same inode: every persisted field is preserved |
| Codec.ReadINodesEncoded | main.cpp:151-186 | `count` consecutive records read back as the same inodes in the same order |
| Codec.SortedIds | main.cpp:106 | the ids of a store listed in std::map order: ascending, each key exactly once |
| Codec.DecodeEncodeStore | main.cpp:94-135 | decoding the saved bytes gives one record per stored id, in ascending id order |
| Codec.BuildStore | main.cpp:180 | every stored inode sits under its own id, and every record's id becomes a key |
| Codec.BuildStoreKeys | main.cpp:145-181 | the load replaces the whole store: its keys are exactly the records' ids, and a repeated id keeps the last record that carries it |
| Codec.BuildStoreEntries | main.cpp:180 | storing the records listed under some ids gives exactly those ids, each with its original inode |
| Codec.RebuildAll | main.cpp:180 | storing the records of every id of a store gives back that store |
| Codec.PendingFirst | main.cpp:106-132 | writing the least remaining id emits its record, followed by the bytes of the others |
| Codec.LoadAfterSave | main.cpp:138-189 | loading the bytes saved from a store succeeds and rebuilds exactly that store |
| INodeTree.Decompose | main.cpp:338-351 | the subtree of an entry is the entry together with the subtrees of its children |
| INodeTree.SubtreeSize | main.cpp:338-351 | a subtree has one more entry than its children's subtrees together |
| INodeTree.WorklistStep | main.cpp:339-350 | popping an entry and pushing its children removes exactly that entry from what the stack covers, and the size sum drops by one |
| INodeTree.FirstMatch | main.cpp:309-314 | the first child in children order with that name (and a directory when asked); None exactly when no child matches |
| INodeTree.NoMatchFreshName | main.cpp:199-205 | when the scan finds nothing, no child carries the name |
| INodeTree.FirstMatchUnique | main.cpp:224-226 | since sibling names are distinct, the scan finds the one child with the name |
| INodeTree.AbsolutePathStep | main.cpp:444-468 | the path of the root is "/"; any other entry's path is "/name" under the root, else its parent's path, "/" and its name |
| INodeTree.RecursiveList | main.cpp:269-289 | the listing starts with the entry itself at the given depth |
| INodeTree.RecursiveListCovers | main.cpp:269-289 | the recursive listing holds every entry of the subtree exactly once |
| INodeTree.RecursiveListDepths | main.cpp:272-287 | each listed entry is indented by its depth below the start plus the starting depth |
| StoreOps.EraseAt | main.cpp:332 | erasing position i shifts the later children down by one and keeps the earlier ones |
| StoreOps.TouchedValid | main.cpp:192-194 | stamping an entry keeps the tree valid and changes nothing but that entry's time |
| StoreOps.ReplaceSameShape | main.cpp:396-397 | replacing permissions and time keeps the tree valid and changes no other entry |
| StoreOps.AddChildValid | main.cpp:207-219 | a fresh entry under a directory keeps the tree valid. The store grows by one; the id is appended to the parent's children; the parent is stamped; nothing else changes |
| StoreOps.AddChildFound | main.cpp:199-205 | after creation, a lookup by the new name finds the new entry, so a second mkdir of that name is refused |
| StoreOps.RenamedValid | main.cpp:376-378 | renaming to a name no sibling has keeps the tree valid; only the child's name and time and the parent's time change |
| StoreOps.RenameBack | main.cpp:363-386 | after a rename the old name is free again, and renaming back restores the store except for the two timestamps |
| StoreOps.RemovedTreeValid | main.cpp:331-353 | removing a child keeps the tree valid. Exactly its subtree leaves the store, so the size drops by the subtree's size. The parent loses that child and is stamped; other entries are untouched |
| StoreOps.RemovedLeaf | main.cpp:325-351 | removing a file or an empty directory takes exactly that one entry out of the store |
| CommandHistory.PushHistoryBounded | main.cpp:477-480 | recording a line keeps at most 100 lines, ends with the line, and drops the oldest only when full |
| CommandHistory.ReplayKeepsLatest | main.cpp:477-480 | after any sequence of commands the history is exactly the latest 100 lines, oldest first |
| FileSystem.ContainsIffOccurs | main.cpp:418 | the substring test holds exactly when the query occurs at some position of the name |
| FileSystem.Reversed | main.cpp:457 | reversal keeps the length and mirrors every position |
| FileSystem.SimpleFileSystem.constructor | main.cpp:72-86 | starts at the root with an empty history. Without a readable file the store is the root alone with counter 1; otherwise it is the loaded store |
| FileSystem.SimpleFileSystem.LoadFromDisk | main.cpp:138-189 | without a file nothing changes. Otherwise the records replace the store, and the counter rises above every loaded id without ever decreasing |
| FileSystem.SimpleFileSystem.InstallRecords | main.cpp:145-186 | the read loop leaves exactly the records stored by id, later ones winning, with the counter above every id |
| FileSystem.SimpleFileSystem.SaveToDisk | main.cpp:94-135 | the bytes written are the count followed by every record in ascending id order |
| FileSystem.SimpleFileSystem.FindChild | main.cpp:198-205 | the scan of the working directory's children returns the first match |
| FileSystem.SimpleFileSystem.CreateEntry | main.cpp:207-219 | push_back, insert and stamp together give AddChild of a fresh entry with the old counter; the counter grows by one |
| FileSystem.SimpleFileSystem.Mkdir | main.cpp:197-220 | a taken name is refused with nothing changed; otherwise an empty directory is added and the invariant holds |
| FileSystem.SimpleFileSystem.Touch | main.cpp:223-247 | an existing child only gets a new time; otherwise an empty file is added |
| FileSystem.SimpleFileSystem.Cd | main.cpp:292-318 | "" stays; "/" goes to the root; ".." goes to the parent except at the root; a name goes to the first child directory with it, or fails; the store never changes |
| FileSystem.SimpleFileSystem.Rm | main.cpp:321-360 | a missing name or a non-empty directory is refused with nothing changed; otherwise the store becomes RemovedTree of the matched position |
| FileSystem.SimpleFileSystem.DeleteSubtree | main.cpp:335-351 | the worklist loop erases exactly the subtree of the removed entry |
| FileSystem.SimpleFileSystem.Mv | main.cpp:363-386 | a missing name, or a new name any child already has, is refused with nothing changed; otherwise the store becomes Renamed |
| FileSystem.SimpleFileSystem.Chmod | main.cpp:389-405 | a missing name or a mode not 3 or 9 long is refused; otherwise only the child's permissions and time change |
| FileSystem.SimpleFileSystem.Find | main.cpp:408-433 | reports each entry of the working directory's subtree whose name contains the query, each once, with its absolute path; found exactly when something was reported |
| FileSystem.SimpleFileSystem.GetAbsolutePath | main.cpp:444-468 | the parent walk, the reversal and the join compute the absolute path |
| FileSystem.SimpleFileSystem.Pwd | main.cpp:471-473 | the absolute path of the working directory |
| FileSystem.SimpleFileSystem.Ls | main.cpp:250-266 | without -R the children in order; with -R the depth-first listing of the working directory |
| FileSystem.SimpleFileSystem.History | main.cpp:436-441 | the recorded lines numbered from 1, oldest first |
| FileSystem.SimpleFileSystem.RecordHistory | main.cpp:477-480 | the history becomes PushHistory of the line; nothing else changes |
| FileSystem.SimpleFileSystem.Dispatch | main.cpp:486-558 | each command keeps the invariant and has, per command, the effect its own method states: mkdir, touch, rm, mv and chmod refuse or update the store as above, `cd` without an argument goes to the root and with one moves as `cd` does, queries change nothing, a missing argument and an unknown command are refused |
| FileSystem.SimpleFileSystem.Execute | main.cpp:476-559 | records the line in the bounded history, then dispatches the command |
| FileSystem.PopTop | main.cpp:339-350 | one step of the worklist loop preserves the exact cover of the subtree and decreases the remaining work |
| FileSystem.PushAll | main.cpp:343-347 | pushing the children puts them on the stack in children order |
| FileSystem.ReportHit | main.cpp:418-421 | reporting a newly visited match keeps the hits exact, distinct and paired with their paths |
| FileSystem.Reopen | main.cpp:72-91 | saving a valid file system and starting a new one from the bytes gives the same store, valid, at the root with an empty history |
| RmFinding.RmAsWrittenOrphans | main.cpp:332-336 | when the removed child has a next sibling, rm as written erases the sibling instead, keeps the child stored but unlisted, and breaks the tree |
| RmFinding.RmAsWrittenLastAgrees | main.cpp:332-336 | for the last child, rm as written removes what was intended |
| RmFinding.RmAsWrittenExample | main.cpp:332-336 | for a root with files a and b, `rm a` as written erases b and leaves an invalid store |
| RmFinding.RemovedTreeExample | main.cpp:321-360 | for the same root, the intended removal erases a, keeps b, and keeps a valid tree |

## Left out

- Terminal interaction is not modelled: `runShell`, the prompt, the help text and every console message. Each refusal is an `Outcome` value instead.
- Splitting a command line into words is not modelled. `Execute` receives an already parsed `Command`.
- `exit`/`quit` and the destructor save, then end the process. Only the save and a later load are modelled, in `Reopen`.
- File streams become values. The file is an optional byte string: None stands for a missing file. An unwritable file is not modelled.
- `time()` becomes a `now` parameter of each mutator. The root's creation time is the constructor's `now`.
- The `blocks` field is never used by the program and is not modelled.
- The tab and " bytes" formatting of `ls`, `recursiveList`, `history` and `find` is not modelled. These return ids, depths, numbered lines and paths. `ls -i` only adds the id column to the printout.
- Integers are unbounded. The 32-bit overflow of `next_inode_id` and of `size` is not modelled.
- The file layout is host-native in the source. It is fixed here as little-endian: int 4 bytes, size_t and time_t 8 bytes, bool 1 byte.
- Strings are sequences of characters, one per byte of the source's `std::string`, so every length the source measures in bytes (`mode.size()` in chmod, the name and permission lengths in the file) is a count of characters here. Multi-byte encodings are not modelled; in the file each character must be below 256.
- FileSystem.SimpleFileSystem.LoadFromDisk: a file that ends before its last record is refused with InvalidFormat and the store is left unchanged. In the source a failed read leaves `count` or `len` uninitialised, so the following loop bound or `resize(len)` works on an indeterminate value: undefined behaviour that may also throw.
- Codec.ReadBool: any non-zero flag byte is read as true.
- FileSystem.SimpleFileSystem.SaveToDisk: requires every field to fit its width (`StorePersistable`). Fixed-width C++ fields always fit.
- FileSystem.SimpleFileSystem.constructor: the loaded store is not checked, as in the source. The object invariant is promised only when the loaded store is a valid tree.
- The operations require the object invariant. `operator[]` inserting a default inode for a missing id only happens on a corrupt store and is not modelled.
- FileSystem.SimpleFileSystem.Find: the order in which paths are reported (depth-first, last child first) is not stated. Only which entries are reported, once each, and their paths.
- FileSystem.SimpleFileSystem.Execute: states the history update, the no-argument `cd`, that queries change nothing, and the two usage refusals. The effect of each other command is stated on its own method.

## Findings

| source | as written | input that shows it | evidently intended | confidence | as-written member | corrected member |
|---|---|---|---|---|---|---|
| main.cpp:332-336 | `children.erase(it)` runs before `to_delete.push(*it)`, so the pushed id is read through an invalidated iterator. With the usual vector layout it is the next sibling. | the root holds files `a` (id 1) and `b` (id 2); `rm a` | push the matched child's id, read before the erase | high that the read is undefined behaviour; the erased sibling relies on the usual vector layout; not executed | RmFinding.RmAsWrittenExample | StoreOps.RemovedTreeValid |
