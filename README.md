# TecnicoFS core in Dafny

TecnicoFS is an in-memory file system. Its state is a fixed table of inodes:
- a directory's inode holds a fixed array of `(name, inumber)` entries;
- a file's inode holds no entries.

This project models the sequential logic of the system's core, with locks and threads removed:

- **Path and tree operations** of the batch program (`projeto/so-20-21-ex1_base/fs/operations.c`) are modelled in modules `Paths`, `Operations` and `TreeProperties`:
  - `split_parent_child_from_path`, on a character array that it edits in place;
  - `lookup_sub_node` and `is_dir_empty`;
  - `lookup`, which walks the path one `strtok` component at a time from `FS_ROOT`;
  - `create`, `delete` and `init_fs`.
- **The inode table** is in `state.c`, which is not part of this model. Module `FsState` gives it a class `InodeTable` over an array of slots. Its operations have contracts that match how `operations.c` uses them.
  - Each operation is proved against a function on the table's value.
  - The tree invariant `Operations.WellFormed` says that:
    - references point to used inodes;
    - names are unique in a directory;
    - no inode is the target of two entries, so every inode has at most one parent entry; an inode that `create` leaked has none;
    - the entries are acyclic: a rank that grows by one along every entry exists, so no chain of entries returns to where it started (`NoCycle`).
  - `init_fs`, `create` and `delete` are shown to preserve it.
- **The command buffer** of the batch program (`projeto/so-20-21-ex1_base/main.c`) is modelled in modules `CommandBuffers` and `Batch`:
  - the ring buffer of `insertCommand`/`removeCommand`, with a ghost view of its contents, oldest first;
  - the admission rule of `processInput`;
  - the dispatch loop of `applyCommands`, proved against the pure functions `Intake` and `RunAll`.
- **The request handlers of the two socket servers** are modelled in modules `Manifests`, `Server` and `MainServer`:
  - `unlockAll` over the lock manifest array;
  - the request handler `applyCommands` of `server/main.c` and its variant in `main.c`, and the one-reply step of `socketOn`.
  - The fs operations these handlers call are not part of this model. Each call is described by the inumbers it locks and its result code.

Commands are the tuples that `sscanf` fills, with the count it returns. They are defined in module `Commands`. The decimal text of results is defined in module `Replies`.

Some choices follow the code rather than TecnicoFS's design:
- Only one trailing `/` is removed before a path is split, where the design says trailing slashes are normalised away.
  - So the child of a path ending in `//` keeps a `/`: the child of `a//` is `a/`.
  - `create` stores that name, but no `strtok` component can equal it, so no lookup ever reaches the new inode (`CreatedUnreachable`).
  - The smallest example is on the table `init_fs` builds: create of `a//` succeeds, and lookup of `a//` still fails (`DoubleSlashCreate`).
  - `SplitChildPlain` shows that the child is a plain name except for `/` and the paths ending in `//`. `CreateThenLookup` and `DeleteThenLookup` are stated for plain children only.
- The design bounds every path to MAX_DEPTH components. `create` never limits nesting, so the model has no depth bound either.
- A `create` whose `dir_add_entry` fails leaves its freshly allocated inode in use. The design says every operation either completes all its mutations or none, but the code does not release the inode. `CreateLeaksInode` shows this.
- Reading the entries of a file through the `union Data` is undefined in C. In the model a file has no entries, so a path that goes through a file does not resolve.

## Model

| member | source | states |
|---|---|---|
| FsState.NewInode | projeto/so-20-21-ex1_base/fs/operations.c:90 | a fresh inode has the requested type; a directory gets MAX_DIR_ENTRIES free entries and a file none |
| FsState.EmptyTable | projeto/so-20-21-ex1_base/fs/operations.c:88 | after inode_table_init every slot is free |
| FsState.FirstFree | projeto/so-20-21-ex1_base/fs/operations.c:203 | the lowest free slot at or after `from`, or FAIL exactly when every slot is in use |
| FsState.Allocate | projeto/so-20-21-ex1_base/fs/operations.c:203-209 | inode_create fails exactly when the table is full and then changes nothing; otherwise it fills the lowest free slot with a fresh inode and changes no other slot |
| FsState.FirstWith | projeto/so-20-21-ex1_base/fs/operations.c:211 | the first entry holding a given inumber, or -1 exactly when there is none |
| FsState.AddEntry | projeto/so-20-21-ex1_base/fs/operations.c:211-216 | dir_add_entry fails exactly when the target is not a directory or its entries are all in use; failure changes nothing, success changes only the parent's slot |
| FsState.ResetEntry | projeto/so-20-21-ex1_base/fs/operations.c:276-281 | dir_reset_entry fails exactly when the target is not a directory or no entry holds the child; failure changes nothing, success changes only the parent's slot |
| FsState.Release | projeto/so-20-21-ex1_base/fs/operations.c:285-290 | inode_delete fails exactly on an unused slot; success frees that slot and no other |
| FsState.InodeTable.InodeTableInit | projeto/so-20-21-ex1_base/fs/operations.c:88 | the table array becomes the empty table |
| FsState.InodeTable.InodeCreate | projeto/so-20-21-ex1_base/fs/operations.c:203 | the array and the result are those of Allocate on the old table |
| FsState.InodeTable.InodeGet | projeto/so-20-21-ex1_base/fs/operations.c:186 | succeeds exactly on a used slot and then returns its type and data; changes nothing |
| FsState.InodeTable.DirAddEntry | projeto/so-20-21-ex1_base/fs/operations.c:211 | the array and the result are those of AddEntry on the old table |
| FsState.InodeTable.DirResetEntry | projeto/so-20-21-ex1_base/fs/operations.c:276 | the array and the result are those of ResetEntry on the old table |
| FsState.InodeTable.InodeDelete | projeto/so-20-21-ex1_base/fs/operations.c:285 | the array and the result are those of Release on the old table |
| Paths.Strlen | projeto/so-20-21-ex1_base/fs/operations.c:57 | the index of the first NUL of the buffer |
| Paths.CStringAt | projeto/so-20-21-ex1_base/fs/operations.c:78-79 | the C string a pointer into the buffer denotes: the characters up to the next NUL |
| Paths.Trimmed | projeto/so-20-21-ex1_base/fs/operations.c:59-62 | one trailing '/' is removed, and nothing else changes |
| Paths.LastSlashBefore | projeto/so-20-21-ex1_base/fs/operations.c:64-69 | the last '/' before a position that is followed by a character, or -1 when there is none |
| Paths.Split | projeto/so-20-21-ex1_base/fs/operations.c:54-80 | without a '/' that is followed by a character, the parent is "" and the child is the trimmed path; otherwise parent + "/" + child is the trimmed path and the child has no such '/' |
| Paths.SplitBuffer | projeto/so-20-21-ex1_base/fs/operations.c:60-77 | the buffer after the split differs from the original only where a '/' became a NUL |
| Paths.SplitOutcome | projeto/so-20-21-ex1_base/fs/operations.c:71-79 | the C strings the two pointers denote, read in the modified buffer, are the halves of Split |
| Paths.TrimmedBuffer | projeto/so-20-21-ex1_base/fs/operations.c:59-62 | once a trailing '/' is overwritten with a NUL, the buffer holds the trimmed path followed by a NUL |
| Paths.SplitWhole | projeto/so-20-21-ex1_base/fs/operations.c:71-75 | with no inner '/' to cut at, the child read from the buffer is the whole trimmed path, as Split says, and the buffer is SplitBuffer of the original |
| Paths.SplitCut | projeto/so-20-21-ex1_base/fs/operations.c:77-79 | with a NUL written at the last inner '/', the C strings at the start and just after it are the two halves of Split, and the buffer is SplitBuffer of the original |
| Paths.ScanLast | projeto/so-20-21-ex1_base/fs/operations.c:64-69 | the position the scan remembers is -1 or a '/' whose next character is not NUL |
| Paths.ScanFindsLastSlash | projeto/so-20-21-ex1_base/fs/operations.c:64-69 | over a buffer holding a C string and its NUL, the scan finds the same position as LastSlashBefore on the string |
| Paths.ScanOverTrimmed | projeto/so-20-21-ex1_base/fs/operations.c:59-69 | scanning up to the original length, over the NUL left by a trailing '/', finds the last inner '/' of the trimmed path |
| Paths.ScanSlashes | projeto/so-20-21-ex1_base/fs/operations.c:64-69 | n_slashes is zero exactly when the scan finds no '/' followed by a character; otherwise last_slash_location is the last such '/' |
| Paths.DropTrailingSlash | projeto/so-20-21-ex1_base/fs/operations.c:59-62 | a trailing '/' becomes a NUL and every other character is unchanged |
| Paths.CutAtLastSlash | projeto/so-20-21-ex1_base/fs/operations.c:64-79 | on the buffer with its trailing '/' dropped, the parent and child are Split of the path and the buffer ends as SplitBuffer of the original |
| Paths.SplitParentChildFromPath | projeto/so-20-21-ex1_base/fs/operations.c:54-81 | the parent and child it returns are Split of the path; the buffer afterwards is SplitBuffer of the old buffer |
| Paths.RunLength | projeto/so-20-21-ex1_base/fs/operations.c:323 | the length of the leading run of characters that are not '/' |
| Paths.Tokens | projeto/so-20-21-ex1_base/fs/operations.c:323-330 | the successive strtok tokens with delimiter "/": non-empty and slash-free |
| Paths.RunLengthBeforeSlash | projeto/so-20-21-ex1_base/fs/operations.c:323 | a token ends at the first '/' |
| Paths.TokensConcat | projeto/so-20-21-ex1_base/fs/operations.c:323-330 | the tokens of a + "/" + b are those of a followed by those of b |
| Paths.EmptyComponentsSkipped | projeto/so-20-21-ex1_base/fs/operations.c:323-330 | "a//b" has the same tokens as "a/b" |
| Paths.AllSlashesNoTokens | projeto/so-20-21-ex1_base/fs/operations.c:323 | an empty path, or one made only of slashes, has no tokens |
| Paths.TokensOfName | projeto/so-20-21-ex1_base/fs/operations.c:323 | a plain name is its own single token |
| Paths.TrimmedTokens | projeto/so-20-21-ex1_base/fs/operations.c:59-62 | removing the trailing '/' does not change the tokens |
| Paths.SplitTokens | projeto/so-20-21-ex1_base/fs/operations.c:176-178 | when the child is a plain name, the tokens of the path are those of the parent followed by the child |
| Paths.SplitChildPlain | projeto/so-20-21-ex1_base/fs/operations.c:59-79 | the child is a plain name (non-empty, no '/') exactly when the path is neither "/" nor ends in "//" |
| Operations.FirstMatch | projeto/so-20-21-ex1_base/fs/operations.c:149-154 | the first used entry with the name, or -1 exactly when no used entry has it |
| Operations.SubNode | projeto/so-20-21-ex1_base/fs/operations.c:144-157 | FAIL exactly for NULL entries or when no used entry has the name; otherwise the inumber of a used entry with that name |
| Operations.Walk | projeto/so-20-21-ex1_base/fs/operations.c:326-331 | the walk ends where it starts when there are no components; in a table whose references are sound it ends at FAIL or at a used inode, and never at the root after a component |
| Operations.CreateSpec | projeto/so-20-21-ex1_base/fs/operations.c:167-220 | create always returns SUCCESS or FAIL and keeps every slot well-shaped |
| Operations.DeleteSpec | projeto/so-20-21-ex1_base/fs/operations.c:229-294 | delete always returns SUCCESS or FAIL and keeps every slot well-shaped |
| Operations.InitialTable | projeto/so-20-21-ex1_base/fs/operations.c:87-94 | the table after init_fs is well-shaped |
| Operations.LookupSubNode | projeto/so-20-21-ex1_base/fs/operations.c:144-157 | the scan returns SubNode of the name in the entries |
| Operations.IsDirEmpty | projeto/so-20-21-ex1_base/fs/operations.c:117-132 | SUCCESS exactly when the entries exist and are all FREE_INODE; FAIL otherwise, including NULL |
| Operations.Lookup | projeto/so-20-21-ex1_base/fs/operations.c:305-334 | the loop returns the inumber the path resolves to from FS_ROOT, or FAIL at the first missing component |
| Operations.CopyName | projeto/so-20-21-ex1_base/fs/operations.c:175 | strcpy into a fresh buffer holds the name followed by NUL |
| Operations.Create | projeto/so-20-21-ex1_base/fs/operations.c:167-220 | the new table and the result are CreateSpec of the old table |
| Operations.Delete | projeto/so-20-21-ex1_base/fs/operations.c:229-294 | the new table and the result are DeleteSpec of the old table |
| Operations.InitFs | projeto/so-20-21-ex1_base/fs/operations.c:87-94 | the first allocation on an empty table is FS_ROOT as a directory, so init_fs never exits |
| TreeProperties.SubNodeEdge | projeto/so-20-21-ex1_base/fs/operations.c:149-153 | a found subnode is the target of a used entry with that name |
| TreeProperties.SubNodeTarget | projeto/so-20-21-ex1_base/fs/operations.c:150-152 | in a sound table a found subnode is a used inode other than the root |
| TreeProperties.SubNodeOfEdge | projeto/so-20-21-ex1_base/fs/operations.c:149-153 | with unique names, looking up an entry's name finds that very entry |
| TreeProperties.SubNodeAfterInsert | projeto/so-20-21-ex1_base/fs/operations.c:211 | filling a free entry with c leaves lookups of other names unchanged and makes c find the new inode |
| TreeProperties.SubNodeAfterReset | projeto/so-20-21-ex1_base/fs/operations.c:276 | freeing an entry leaves the lookup of every name not resolved through it unchanged |
| TreeProperties.ResolveAllSlashes | projeto/so-20-21-ex1_base/fs/operations.c:312-333 | an empty or all-slash path resolves to FS_ROOT |
| TreeProperties.ResolveSkipsEmpty | projeto/so-20-21-ex1_base/fs/operations.c:323-330 | "a//b" resolves like "a/b" |
| TreeProperties.WalkAppend | projeto/so-20-21-ex1_base/fs/operations.c:326-331 | walking a + b walks a and then b from where a ended; FAIL stays FAIL |
| TreeProperties.ResolveChild | projeto/so-20-21-ex1_base/fs/operations.c:326-333 | "a/x" resolves to FAIL when a does not, otherwise to x looked up in what a resolves to |
| TreeProperties.ResolveMissing | projeto/so-20-21-ex1_base/fs/operations.c:326-333 | once a prefix is missing, every extension of it fails |
| TreeProperties.InsertedEdges | projeto/so-20-21-ex1_base/fs/operations.c:211 | an insertion adds exactly one entry and keeps every other entry and every used inode |
| TreeProperties.RemovedEdges | projeto/so-20-21-ex1_base/fs/operations.c:276-285 | a removal drops exactly one entry and the child inode, and keeps everything else |
| TreeProperties.InitialWellFormed | projeto/so-20-21-ex1_base/fs/operations.c:87-94 | the table after init_fs is a well-formed, acyclic tree |
| TreeProperties.ChainRank | projeto/so-20-21-ex1_base/fs/operations.c:149-153 | following k entries from an inode raises the rank by exactly k |
| TreeProperties.NoCycle | projeto/so-20-21-ex1_base/fs/operations.c:326-331 | in a well-formed table no chain of one or more entries leads back to the inode it started from |
| TreeProperties.AllocatePreserves | projeto/so-20-21-ex1_base/fs/operations.c:203 | allocating an inode keeps the tree well-formed |
| TreeProperties.InsertPreserves | projeto/so-20-21-ex1_base/fs/operations.c:195-216 | adding an entry for an absent name and a fresh inode keeps the tree well-formed |
| TreeProperties.RemovePreserves | projeto/so-20-21-ex1_base/fs/operations.c:264-290 | unlinking and freeing a dead-end child keeps the tree well-formed |
| TreeProperties.CreateOutcome | projeto/so-20-21-ex1_base/fs/operations.c:178-219 | SUCCESS exactly when the parent resolves to a directory, the name is absent, an inode is free and the parent has a free entry; success adds exactly that entry for the new inode; failure leaves the table unchanged, except for the leaked inode when only the directory was full |
| TreeProperties.CreateLeaksInode | projeto/so-20-21-ex1_base/fs/operations.c:203-216 | with a full parent directory, create fails and still leaves the allocated inode in use |
| TreeProperties.CreatePreservesWellFormed | projeto/so-20-21-ex1_base/fs/operations.c:167-220 | create keeps the tree well-formed and acyclic, on every outcome: the new inode is a leaf one rank below its parent |
| TreeProperties.DeleteOutcome | projeto/so-20-21-ex1_base/fs/operations.c:240-293 | SUCCESS exactly when the parent resolves to a directory, the child is present and is not a non-empty directory; failure leaves the table unchanged; success unlinks the child's entry and frees it |
| TreeProperties.DeletePreservesWellFormed | projeto/so-20-21-ex1_base/fs/operations.c:229-294 | delete keeps the tree well-formed and acyclic, on every outcome |
| TreeProperties.WalkInsertFrame | projeto/so-20-21-ex1_base/fs/operations.c:211 | an insertion does not change where a successful walk ends |
| TreeProperties.WalkRemoveFrame | projeto/so-20-21-ex1_base/fs/operations.c:276-285 | a removal does not change a successful walk that does not end at the removed node |
| TreeProperties.CreateThenLookup | projeto/so-20-21-ex1_base/fs/operations.c:305-334 | for a path whose child is a plain name (not "/" and not ending in "//", by SplitChildPlain), after a successful create, lookup of the path finds the new inode of the requested type in the lowest free slot |
| TreeProperties.WalkInsertAvoid | projeto/so-20-21-ex1_base/fs/operations.c:326-331 | an insertion changes no walk, successful or not, whose components differ from the inserted name |
| TreeProperties.CreatedUnreachable | projeto/so-20-21-ex1_base/fs/operations.c:59-62 | when the child holds a '/', a successful create changes no lookup, and no lookup reaches the new inode, which is in use |
| TreeProperties.DoubleSlashPath | projeto/so-20-21-ex1_base/fs/operations.c:59-69 | "a//" splits into the root and the child "a/", and strtok sees only "a" |
| TreeProperties.DoubleSlashCreate | projeto/so-20-21-ex1_base/fs/operations.c:167-220 | with an empty root directory and a free slot, create of "a//" succeeds and lookup of "a//" still fails |
| TreeProperties.InitialRootEmpty | projeto/so-20-21-ex1_base/fs/operations.c:87-94 | the table init_fs builds has an empty root directory and a free slot, so DoubleSlashCreate applies to it |
| TreeProperties.CreateTwice | projeto/so-20-21-ex1_base/fs/operations.c:195-199 | after a successful create, creating the same path again fails and changes nothing |
| TreeProperties.DeleteUnlinks | projeto/so-20-21-ex1_base/fs/operations.c:257-281 | after a successful delete, the parent still resolves to the same directory and no longer holds the child's name |
| TreeProperties.DeleteThenLookup | projeto/so-20-21-ex1_base/fs/operations.c:305-334 | for a path whose child is a plain name (not "/" and not ending in "//"), after a successful delete, lookup of the path fails |
| TreeProperties.DeleteTwice | projeto/so-20-21-ex1_base/fs/operations.c:257-263 | after a successful delete, deleting the same path again fails and changes nothing |
| Commands.TypeChar | server/main.c:76 | the node type is the first character of the second word |
| CommandBuffers.Next | projeto/so-20-21-ex1_base/main.c:38-39 | the advanced index is (i + 1) mod MAX_COMMANDS |
| CommandBuffers.CommandBuffer.InsertCommand | projeto/so-20-21-ex1_base/main.c:34-44 | returns 1; the command goes into the insert slot, the index advances with wrap, the count grows by one, the contents gain the command at the end, and the buffer invariant holds |
| CommandBuffers.CommandBuffer.RemoveCommand | projeto/so-20-21-ex1_base/main.c:46-61 | NULL with nothing changed when input is finished and the buffer is empty; otherwise the oldest command, with the index advanced with wrap and the count one less |
| CommandBuffers.CommandBuffer.Finish | projeto/so-20-21-ex1_base/main.c:116-119 | sets finished and changes nothing else |
| CommandBuffers.RingDistinct | projeto/so-20-21-ex1_base/main.c:37-40 | positions of a window shorter than the ring fall in distinct slots |
| CommandBuffers.RingShift | projeto/so-20-21-ex1_base/main.c:55-57 | advancing the remove index shifts the window by one |
| CommandBuffers.ReplaySteps | projeto/so-20-21-ex1_base/main.c:34-61 | a Put of Replay appends the command, as InsertCommand's contract says of Contents; a Take yields None on an empty buffer and otherwise the oldest command, as RemoveCommand's contract says |
| CommandBuffers.ReplayAppend | projeto/so-20-21-ex1_base/main.c:34-61 | replaying two runs of calls in a row is replaying the first and then the second from where it left the buffer |
| CommandBuffers.FifoOrder | projeto/so-20-21-ex1_base/main.c:38-55 | what any sequence of inserts and removes takes out, followed by what is left, is the old contents followed by the inserted commands in order |
| Batch.Admit | projeto/so-20-21-ex1_base/main.c:83-114 | a line is queued exactly when it is 'c' with three tokens or 'l'/'d' with two; skipped exactly when it has no token or is a '#' comment; rejected in every other case, for example 'c' with two tokens or 'l' with three |
| Batch.Intake | projeto/so-20-21-ex1_base/main.c:69-120 | every queued command is admitted, there are no more of them than lines, and parsed lines give parsed commands |
| Batch.IntakeFatal | projeto/so-20-21-ex1_base/main.c:86-113 | processInput stops exactly when some line is rejected, and every queued command is one of the lines |
| Batch.IntakeAppend | projeto/so-20-21-ex1_base/main.c:76-115 | lines are handled in order: intake of a + b is that of a, followed, unless a was rejected, by that of b |
| Batch.ProcessInput | projeto/so-20-21-ex1_base/main.c:69-120 | the buffer gains the admitted commands in order; it is fatal exactly when a line is rejected; finished is set at the end of input |
| Batch.Step | projeto/so-20-21-ex1_base/main.c:130-170 | a command applied to a table keeps it well-shaped |
| Batch.RunAll | projeto/so-20-21-ex1_base/main.c:124-173 | one report per command when the run does not end on a fatal command |
| Batch.AdmittedFatal | projeto/so-20-21-ex1_base/main.c:139-153 | an admitted command is fatal to applyCommands exactly when it is a 'c' whose type is neither 'f' nor 'd' |
| Batch.StepPreservesWellFormed | projeto/so-20-21-ex1_base/main.c:139-169 | every applied command keeps the tree well-formed |
| Batch.RunAllPreservesWellFormed | projeto/so-20-21-ex1_base/main.c:124-173 | a whole run keeps the tree well-formed |
| Batch.ApplyCommand | projeto/so-20-21-ex1_base/main.c:133-170 | one command: fatal exactly when Step says so, leaving the table as it was; otherwise the new table and the printed report are those of Step |
| Batch.ApplyCommands | projeto/so-20-21-ex1_base/main.c:124-173 | the final table, the reports and the fatal flag are RunAll of the buffer contents; a normal return leaves the buffer empty |
| Batch.RunBatch | projeto/so-20-21-ex1_base/main.c:222-233 | the program is fatal exactly when input is rejected or a queued command is fatal; otherwise it ends with RunAll's table, which is well-formed |
| Replies.Digits | server/main.c:206 | decimal digits with no leading zero; two or more exactly from 10 up |
| Replies.DecimalText | server/main.c:206 | "%d" text starts with '-' exactly for negative numbers |
| Replies.DigitsRoundTrip | server/main.c:206 | reading back the digits of n gives n |
| Replies.DigitsValueAppend | server/main.c:206 | one more digit on the right multiplies the value by ten and adds the digit |
| Replies.SignedValue | server/main.c:206 | a '-' before a string of digits negates its value |
| Replies.UnsignedValue | server/main.c:206 | digits not starting with '-' read as their value |
| Replies.SignedRoundTrip | server/main.c:206 | reading back '-' and the digits of m gives -m |
| Replies.UnsignedRoundTrip | server/main.c:206 | reading back the digits of m as a signed number gives m |
| Replies.DecimalRoundTrip | server/main.c:206 | reading back the printed number gives the number |
| Replies.Truncated | server/main.c:207 | the string strlen sees after a NUL at position k: the first k characters of s, or all of s when it is shorter |
| Replies.ShortText | server/main.c:207 | numbers from -9 to 99 print in at most two characters |
| Manifests.LockTable.Unlock | server/main.c:45 | unlock needs a held lock; it releases it and records the unlock |
| Manifests.ReleaseManifest | server/main.c:43-49 | unlocking a manifest in order succeeds at every step exactly when its entries are distinct and held, and then drops exactly those entries |
| Manifests.Zeroed | server/main.c:46 | the entries below len are 0 and the others keep their values |
| Manifests.UnlockAll | server/main.c:43-49 | unlocks entries 0..len-1 in index order, zeroes them, leaves later entries alone, and sets len to 0; main.c:49-55 has the same loop |
| Manifests.Operate | server/main.c:80 | an fs call with an empty manifest locks its inumbers, lists them in the manifest, and returns its result |
| Server.Dispatch | server/main.c:61-119 | NULL, and only NULL, returns FAIL at once; fewer than two tokens is fatal; an operation runs only for 'c', 'l', 'd', 'm' or 'p', and printFS exactly for a two-token 'p' |
| Server.DispatchOfParsed | server/main.c:67-119 | a parsed request runs an operation exactly for 'l', 'd', 'm', 'p' and for 'c' with type 'f' or 'd'; 'l' runs lookup |
| Server.ApplyCommands | server/main.c:59-121 | NULL gives FAIL; unknown letters, a bad node type and fewer than two tokens are fatal; otherwise the operation's result is returned after everything it locked has been unlocked in order, so the locks held are as before. 'p' takes no manifest |
| Server.Reply | server/main.c:206-207 | the reply is the whole decimal text when it has at most two characters, and its first two characters otherwise |
| Server.ReplyRoundTrip | server/main.c:206-207 | every result from -9 to 99 reaches the client intact |
| Server.Serve | server/main.c:205-208 | a non-fatal request sends SUCCESS, FAIL or an inumber as text that reads back to the same number, and leaves the locks as they were |
| MainServer.Dispatch | main.c:63-116 | NULL, and only NULL, returns -2 at once; fewer than two tokens is fatal; an operation runs only for 'c', 'l', 'd' or 'm', and never printFS |
| MainServer.VariantsAgree | main.c:64-116 | the two handlers agree on every request except NULL, which gives -2 here and FAIL in server/main.c, and 'p', which is fatal here |
| MainServer.ApplyCommands | main.c:61-119 | as in server/main.c, with -2 for NULL and 'p' fatal; every operation releases its manifest |
| MainServer.ReplyAsWritten | main.c:179-180 | the reply keeps only the first character of the decimal text |
| MainServer.ReplyAsWrittenLosesResults | main.c:179-180 | FAIL, like every negative result, arrives as "-", which is not a number; lookup results 1 and 12 both arrive as "1" |
| MainServer.Serve | main.c:178-182 | with the two-character reply, every result of applyCommands reaches the client intact, and the locks are as before |

## Left out

- Threads and locking: the strategy `lock`/`unlock` switch, the mutexes, rwlocks and condition variables, and the thread pools. The operations run sequentially, and the condition waits of the buffer are preconditions. `Manifests.LockTable` only records which inodes are held.
- The internals of `state.c` are not part of this model. `FsState` states, as contracts, how `operations.c` uses that file. `dir_add_entry` is assumed to fail only when the target is not a directory or is full.
- The directory entries sit inside each slot's value, not behind a pointer. Aliasing between `pdata.dirEntries` and the table is therefore not modelled. Reads of `pdata` happen before the writes that could change it.
- When `inode_get` fails, the model returns no type and no data. In C the output variables keep whatever they held. In `create` and `delete` such values are uninitialised, and the model reads them as "not a directory".
- `strcpy` into the `MAX_FILE_NAME` buffers of create, delete and lookup is modelled without the bound, so longer names are not cut or overflowed. The same goes for the `MAX_INPUT_SIZE` line buffers, and for `MAX_DEPTH` overflowing the manifest.
- The projeto `main.c` calls `create`, `lookup` and `delete` of `operations.c` without the `strat` argument. The model calls them as defined.
- `sscanf` and `fgets`: a command is the tuple sscanf fills, with the count it returns. The buffer stores that tuple rather than the line text. `applyCommands` parses with the same format as `processInput`, so both see the same tuple.
- Printing: `printf` messages, `print_tecnicofs_tree` and `printFS`. The batch program's messages are kept as `Batch.Report` values. The servers' messages are left out.
- `removeCommand` returns a pointer into the buffer slot, which a later insert may overwrite. The model returns the command's value.
- Batch.ProcessInput: requires room in the buffer for every line. Without a consumer running alongside, a full buffer would block for ever. The `return` after a failed `insertCommand` is unreachable, because `insertCommand` always returns 1.
- Batch.RunBatch: runs processInput to the end before applyCommands starts. The threads' interleaving is not modelled.
- Server.ApplyCommands: the server-side `create`, `lookup`, `delete`, `move` and `printFS` are not part of this model. Each call is given as a `Manifests.Effect`: the distinct inumbers it locks, none of them already held, and its result. The lock-coupled move protocol is left out.
- Sockets: `createSocket`, `setSockAddrUn`, the `recvfrom`/`sendto` loops and the client library. This includes two facts about that code:
  - `main.c` never writes the NUL after the received command;
  - the client's `tfsLookup` sends a `d` command.
- `applyCommands` in `main.c` is modelled for a NULL command, which yields -2. `socketOn` always passes its own buffer, so that path and its -2 reply never happen.
- `args`/`atoi` argument parsing, `gettimeofday` timing and the floating-point elapsed time.
- `destroy_fs`: it only frees the table and the locks.
- Server.Reply: `sprintf` of a result longer than two characters overflows `response[3]`. The model only cuts the text. The results the operations produce never need more than two characters.

## Findings

| source | as written | input that shows it | evidently intended | confidence | as-written member | corrected member |
|---|---|---|---|---|---|---|
| main.c:179-180 | `response[1] = '\0'` keeps one character of the decimal result | FAIL (-1) is sent as "-", which is not a number; lookup results 1 and 12 are both sent as "1". The -2 for NULL cannot reach socketOn, which always passes its own buffer | keep two characters, as server/main.c:207 does and as the client receives (SERVER_RESPONSE_SIZE 2, client/tecnicofs-client-api.c:9) | not executed; medium | MainServer.ReplyAsWrittenLosesResults | MainServer.Serve |
