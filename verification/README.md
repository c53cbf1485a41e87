# Verification of the ChipOS kernel's stateful components

A Dafny model of three components of the kernel and of the string routines under them, with proofs of
what their callers rely on. `dafny verify dfyconfig.toml` checks everything.

* **The heap allocator** (`kernel/memory/memory.c`). `HeapModel` describes kmalloc and kfree as functions on
  an address-ordered list of blocks and three 64-bit counters. `Allocator.KernelHeap` is the allocator as it
  runs: linked headers that are split, marked and merged in place; every method is proved to do what the
  function says. `HeapTheorems` holds the results: the heap is always tiled and fully coalesced, kmalloc fails
  exactly when no gap between live blocks is large enough, kfree undoes kmalloc, freeing every live pointer in
  any order restores the initial heap. Runs are legal when every pointer given to kfree is outside the heap or the
  payload of a listed block at that moment.
* **The filesystem** (`kernel/fs/fs.c`). `FsModel` is the entry table, working directory, cached path and data
  area with every operation as a function; `FileSystem.Filesystem` runs them in place on arrays. `FsView`
  is what a user believes in: a map from paths to nodes and a working directory. The main result is that the
  table refines this map over whole runs, although deletion moves entries about and renumbers the references
  to them. The conditions of a run can be checked before each call: names and paths fit their buffers
  (`FsRuns.BuffersFit`), deletions are childless, files in the middle of the data are not enlarged. `FsLaws`
  says without the model's own functions when each call succeeds, what it changes and where data lies. `FsPaths`
  says what fs_resolve_path does with every string and when the round trip through fs_getcwd, strtok and
  fs_resolve_path holds; `FsLimits` and `FsDeep` give the exact conditions where the operations stop doing what
  one expects, with runs that get there.
* **The editor** (`kernel/editor/editor.c`). `EditorModel` is the buffer with its cursor and a session that reads
  keys; `Editor.LineEditor` edits a two-dimensional character array in place. `EditorLaws` shows that the buffer
  refines a flat text and says exactly what saving and loading preserve; `EditorRuns` holds the invariant for
  every key sequence, `EditorKeys` says what every key and command does to cursor, text, view and file, and
  `EditorTyping` what typing a text does. A session saves to and loads from the filesystem itself:
  `Editor.LineEditor` calls `FileSystem.Filesystem`. The highlighters are lexers whose output is a sequence of
  events (`HighlightModel`, run by `Highlighter`): erasing the markers gives back the line, the markers alternate,
  and the tokens are the only reading of the line under a grammar (`HighlightTokens`).
* **Strings and shell** (`lib/string.c`, `kernel/shell/shell.c`): strcmp, strchr, strstr, strtok, itoa,
  parse_command and simple_atoi, in place on character buffers where the code works in place. strtok and
  strstr follow sections 7.24.5.8 and 7.24.5.7 of ISO/IEC 9899:2011.

## How the model is built

Each component has a value-level description and an imperative one. A class keeps its abstract value in a ghost
field that its validity predicate ties to the real fields, and each method's postcondition equates the new
abstract value with a function of the old one. The theorems are lemmas about those functions.

Where the code and its documentation differ the code is followed: `README.md` of the repository calls the heap a
bump allocator and the filesystem flat; the code has a first-fit list with coalescing and nested directories.

## What does not hold as one might expect

These are proved, with exact conditions where a condition exists:

* A request above 2^64 - 8 bytes wraps to 32 bytes in the rounding (`RoundedCovers`), and free_memory is one
  header short, so on a full heap it wraps to 2^64 - 24 (`StatisticsLaw`, `FullHeap`).
* fs_delete_file does not look for children. It is a pure removal exactly when there are none (`DeleteExact`);
  otherwise an unrelated directory may take over the orphans (`DeleteAdopts`).
* fs_write_file never moves a file. Enlarging one overwrites whatever lies behind it (`StoreExact`,
  `GrowingClobbers`), and so does a save from the editor (`SaveHarmless`, `SaveClobbers`).
* Entering a directory overruns the 256-byte buffer of the cached path exactly when the last 32 names on its path
  and their slashes take up 256 characters or more (`CdFitsExactly`); with names of 62 characters that is the fifth
  level (`FifthLevelOverruns`). Going up never does (`UpAlwaysFits`). The data area lies right behind that buffer.
* strncpy never stops when the source is not shorter than its count (`StrncpyStops`), so fs_create_file cannot
  store names of 63 and more characters, nor fs_resolve_path take paths of 255 and more.
* The path round trip holds exactly for directories at most 32 levels deep whose names are non-empty and free of
  "/" and whose path has at most 254 characters (`PathRoundTrip`). A directory whose path has 255 can be entered
  (`LongPathFails`).
* fs_getcwd writes before it compares lengths: memory behind the caller's buffer is left alone exactly when the path
  fits (`GetCwd`, `OverrunExactly`).
* Saving drops lines that do not fit 4095 bytes and still reports success (`SaveExact`). Loading drops the
  unterminated last line, so only the single empty line survives a save and a load (`SaveLoadExact`,
  `SaveLoadAny`), and every further round of opening and saving takes off one more line (`CyclesLoseLines`).
* A text that is typed goes in whole exactly when every line and the buffer have room for it; otherwise keys are
  lost without notice (`TypingExact`).
* itoa writes no minus sign: simple_atoi reads back exactly the numbers that are not negative (`AtoiInvertsItoa`).
* A free block is cut only if more than 56 bytes are left over; one with exactly 56 is granted whole (`MallocExact`,
  `WholeBlock`).
* Directory ids are never given back: after 252 successful mkdirs no directory can be made, even in a table with
  four entries (`CapacityExact`, `IdsRunOut`). A moved file leaves its old place in the data area in use
  (`MovePlace`).
* Enter and o do not scroll: typing below the last displayed line takes the cursor out of view (`KeyShows`).
* The dotted entries of the RISC-V instruction table can never be highlighted (`DottedNeverMarked`).

## Model

| member | source | states |
|---|---|---|
| HeapTheorems.EveryRun | kernel/memory/memory.c:24-116 | After any legal calls of kmalloc and kfree the blocks tile the heap in address order, payloads are multiples of 8 and at least 32, no two neighbours are free, and the counters agree with the list. |
| HeapTheorems.MallocComplete | kernel/memory/memory.c:49-88 | kmalloc returns NULL if and only if the size is 0 or no contiguous stretch outside the allocated blocks holds the rounded size and a header. |
| HeapTheorems.EveryRunComplete | kernel/memory/memory.c:49-116 | The same in every heap that legal calls of kmalloc and kfree reach: no space is lost to unmerged neighbours. |
| HeapTheorems.MallocExact | kernel/memory/memory.c:49-88 | The first free block with n bytes is granted: cut to n if more than 56 bytes are left over, with a free block of the rest less 24 behind it, and otherwise whole; all other blocks stay and the counters move by the granted bytes and 24. |
| HeapTheorems.MallocFails | kernel/memory/memory.c:68-70 | kmalloc of a size other than 0 fails if and only if no free block has the rounded size, and then changes nothing. |
| HeapTheorems.WholeBlock | kernel/memory/memory.c:180-183 | After kmalloc(88), kmalloc(64), kfree of the first and kmalloc(32) the block of 88 bytes has been granted whole and 224 bytes are in use. |
| HeapTheorems.GapInOneBlock | kernel/memory/memory.c:197-215 | In a coalesced heap every stretch free of allocated blocks lies inside one free block. |
| HeapTheorems.MallocLive | kernel/memory/memory.c:49-88 | A successful kmalloc adds one live allocation at an unused address, at most 56 bytes above the rounded size, and leaves the others where they are; a failed one changes nothing. |
| HeapTheorems.LivePayloadsClear | kernel/memory/memory.c:49-88 | Live payloads lie inside the heap, disjoint from each other and from every header. |
| HeapTheorems.FreeLive | kernel/memory/memory.c:90-116 | kfree of a pointer outside the heap or of a listed block removes the live allocation at its pointer, if there is one, and touches no other. |
| HeapTheorems.MallocFree | kernel/memory/memory.c:49-116 | kmalloc followed by kfree of its result restores the block list and all counters. |
| HeapTheorems.FreeAllResets | kernel/memory/memory.c:90-116 | Freeing pointers legally in any order ends in the initial heap if and only if every live allocation is among them. |
| HeapTheorems.LiveOnceIsLegal | kernel/memory/memory.c:90-116 | Freeing live allocations, each at most once, is legal in every order: no kfree invalidates another live pointer. |
| HeapTheorems.RoundedCovers | kernel/memory/memory.c:59-65 | For sizes up to 2^64 - 8 the rounded size is the least multiple of 8 from 32 on that covers the request; above that it wraps to 32 and covers nothing. |
| HeapTheorems.StatisticsLaw | kernel/memory/memory.c:35-40 | Used plus free memory is the heap size modulo 2^64; used is 24 plus the allocated extents, allocations are counted, and free memory is the free extents less 24 exactly while a free block exists. |
| HeapTheorems.FullHeap | kernel/memory/memory.c:82-83 | Allocating the whole initial heap succeeds and leaves free_memory at 2^64 - 24. |
| HeapLaws.CoalesceKeeps | kernel/memory/memory.c:197-215 | The merge pass turns any tiling with sized blocks into one without two free neighbours. |
| HeapLaws.CoalesceSettled | kernel/memory/memory.c:197-215 | The merge pass leaves a coalesced list alone. |
| Allocator.KernelHeap.constructor | kernel/memory/memory.c:24-47 | The initialised heap: one free block and the initial counters. |
| Allocator.KernelHeap.RoundUp | kernel/memory/memory.c:59-65 | The least multiple of 8 from 32 on that covers the request, or 32 when the 64-bit sum wraps. |
| Allocator.KernelHeap.FindFreeBlock | kernel/memory/memory.c:167-178 | The header of the first free block that is large enough, NULL if there is none. |
| Allocator.KernelHeap.SplitBlock | kernel/memory/memory.c:180-195 | The list afterwards: the tail of the payload is a new free block, or nothing changed. |
| Allocator.KernelHeap.AbsorbNext | kernel/memory/memory.c:206-210 | One merge in place: the block takes over its right neighbour and the links skip it. |
| Allocator.KernelHeap.MergeStep | kernel/memory/memory.c:200-214 | One round of the merge loop: absorb and stay, or advance; what is left of the pass still leads to the coalesced list. |
| Allocator.KernelHeap.Kmalloc | kernel/memory/memory.c:49-88 | The linked list, the counters and the result are those of the model's kmalloc. |
| Allocator.KernelHeap.Kfree | kernel/memory/memory.c:90-116 | The linked list and the counters are those of the model's kfree. |
| Allocator.KernelHeap.MergeFreeBlocks | kernel/memory/memory.c:197-215 | The in-place pass computes the coalesced list. |
| Allocator.KernelHeap.MemoryGetStats | kernel/memory/memory.c:151-164 | num_free_blocks is the number of free blocks in the list. |
| FsRuns.EveryRun | kernel/fs/fs.c:8-526 | From fs_init on, every run keeps the tree invariant and stays in step with the map from paths to nodes, under the conditions on each call that SafeRun and InStep name. |
| FsRuns.RunsAreSafe | kernel/fs/fs.h:51 | While deletions are childless, names and paths fit their buffers and at most 256 files get created, every write stays in the data area and every state keeps the tree invariant. |
| FsRuns.RunsRefine | kernel/fs/fs.c:104-521 | While moreover files in the middle of the data are not enlarged, table and map return the same status at every step and stay related; only lack of space may intervene, and then nothing changes. |
| FsRuns.StepInv | kernel/fs/fs.c:95-426 | Every operation whose names, path and data fit, but a deletion from under children, keeps the invariant: live parents that are directories, finite parent chains, unique sibling names that fit their fields, a live working directory with its cached path inside the buffer, data below data_usage. |
| FsRuns.StepRefines | kernel/fs/fs.c:104-521 | Every operation whose names, path and data fit has the effect and the status of its counterpart on the map and keeps file data disjoint, provided it enlarges no file in the middle. |
| FsRuns.BoundedFits | kernel/fs/fs.c:133-141 | After c creations with c at most 256, an operation whose names and path fit writes nothing outside the data area. |
| FsRuns.StepBounded | kernel/fs/fs.c:119-141 | data_usage and every file's start stay below 4096 bytes per successful creation. |
| FsRuns.FormattedState | kernel/fs/fs.c:8-93 | fs_init leaves the root with home, bin and etc and satisfies the invariant. |
| FsSteps.RemoveAbs | kernel/fs/fs.c:380-426 | Swap-deletion of a childless entry is a pure renumbering: the map loses that path alone and the working directory keeps its path, even when it or an ancestor is the entry that moves. |
| FsTree.RemovedPath | kernel/fs/fs.c:386-396 | After the swap every entry has the path of the entry it was before. |
| FsTree.RemovedTree | kernel/fs/fs.c:386-396 | The renumbered table is still a tree with unique sibling names. |
| FsSteps.RemoveCwd | kernel/fs/fs.c:392-394 | The working directory is the same entry after the swap and its cached path is still right. |
| FsSteps.AppendAbs | kernel/fs/fs.c:104-123 | A new entry adds its path to the map and nothing else. |
| FsSteps.StoreAbs | kernel/fs/fs.c:135-141 | Bytes stored clear of other files change that file in the map and nothing else. |
| FsSteps.EnterAbs | kernel/fs/fs.c:292-296 | Entering a directory whose path fits the buffer changes the working directory's path and nothing else. |
| FsSteps.NoRegrowIsClear | kernel/fs/fs.c:135 | A write that does not enlarge its file, or whose file lies last, meets no other file. |
| FsRefine.CreateStore | kernel/fs/fs.c:125-144 | A write that creates its file changes no other file, whatever the bytes. |
| FsRefine.ReadRefines | kernel/fs/fs.c:146-153 | fs_read_file returns what the map has at the path, cut to the caller's size. |
| FsRefine.RmdirRefines | kernel/fs/fs.c:402-426 | fs_remove_directory refines its counterpart with no side condition; the root counts as its own child and is refused. |
| FsRefine.MoveRefines | kernel/fs/fs.c:457-478 | fs_move_file refines its counterpart when the new name and the data fit, although deleting the source may move the destination's entry. |
| FsLimits.MoveMeans | kernel/fs/fs.c:457-478 | A successful move: the destination has the source's bytes, the source is gone, every other path keeps its node. |
| FsLimits.MoveOfDirectory | kernel/fs/fs.c:465-470 | Moving what is not a regular file returns an error and leaves the state exactly as it was. |
| FsLimits.DeleteExact | kernel/fs/fs.c:380-400 | fs_delete_file removes the path and keeps every other path, type, size and the working directory's path if and only if the entry has no children. |
| FsLimits.DeleteAdopts | kernel/fs/fs.c:386-396 | From any state with room: mkdir a, cd a, create f, cd .., mkdir b, all successful; then deleting a turns a/f into b/f. |
| FsLimits.DeleteAdoptsFromInit | kernel/fs/fs.c:380-400 | That run from fs_init: a/f becomes b/f. |
| FsLimits.StoreExact | kernel/fs/fs.c:135-141 | Storing n bytes in a file can never change another file if and only if those n places meet no byte of another file. |
| FsLimits.GrowingClobbers | kernel/fs/fs.c:125-144 | From any state with room: after writing one byte to each of the new files a and b, writing two bytes to a changes what b reads as. |
| FsLimits.GrowingClobbersFromInit | kernel/fs/fs.c:125-144 | That run from fs_init: b reads 2, and after the write to a it reads 3. |
| FsLaws.CreateMeans | kernel/fs/fs.c:104-123 | The exact status of fs_create_file, a full table first; success adds an empty node at the path and failure changes nothing. |
| FsLaws.WriteMeans | kernel/fs/fs.c:125-144 | The exact status of fs_write_file; success puts the first 4096 bytes at the path and changes no other path, failure changes nothing. |
| FsLaws.WriteThenRead | kernel/fs/fs.c:125-153 | What was written reads back up to the caller's limit, and every other name of the directory reads as before. |
| FsLaws.ReadMeans | kernel/fs/fs.c:146-153 | A read succeeds exactly for regular files and gives their first bytes, as many as the caller takes. |
| FsLaws.MkdirMeans | kernel/fs/fs.c:299-378 | The exact status of fs_make_directory: 1 to 63 characters, a new name, then room in the table and an id below 256. |
| FsLaws.TouchMeans | kernel/fs/fs.c:512-521 | fs_touch_file makes an empty file or changes nothing, and fails exactly when a new file meets a full table. |
| FsLaws.CopyMeans | kernel/fs/fs.c:450-455 | The exact status of fs_copy_file; success gives the destination the source's bytes and changes no other path. |
| FsLaws.MoveFails | kernel/fs/fs.c:457-478 | The exact status of fs_move_file, in the order of its checks; failure changes nothing. |
| FsLaws.DeleteMeans | kernel/fs/fs.c:380-400 | Deleting what has no children succeeds exactly for known names, of any type, and takes that path alone from the map. |
| FsLaws.RmdirMeans | kernel/fs/fs.c:402-426 | fs_remove_directory takes directories below which no path lies, and never the root; the exact status, and failure changes nothing. |
| FsLaws.CdMeans | kernel/fs/fs.c:233-297 | fs_change_directory goes to the named directory, one level up or nowhere; the exact status, and the map stays. |
| FsLaws.StepIds | kernel/fs/fs.c:358 | next_file_id goes up by one with each successful fs_make_directory and is left alone by every other operation. |
| FsLaws.CapacityExact | kernel/fs/fs.c:299-378 | After any run from fs_init a valid new directory is refused for lack of space if and only if the table has 256 entries or 252 directories have been made. |
| FsLaws.IdsRunOut | kernel/fs/fs.c:328-358 | From fs_init, 252 rounds of making and removing one directory leave the four entries of the start and a filesystem that refuses every further directory. |
| FsLaws.WritePlace | kernel/fs/fs.c:133-141 | A written file keeps its start, a new one starts at data_usage, which then is the greater of its old value and the file's end. |
| FsLaws.MovePlace | kernel/fs/fs.c:457-478 | A moved file starts where the used data ended, and its old place stays in use. |
| FsLaws.OtherPlaces | kernel/fs/fs.c:104-521 | No other operation changes data or data_usage, and a created file starts there. |
| FsLaws.StepStays | kernel/fs/fs.c:104-521 | An entry that keeps its path keeps its type and the start of its data, although removals move table entries. |
| FsPaths.PathRoundTrip | kernel/fs/fs.c:523-577 | Resolving the fs_getcwd string of the working directory gives it back if and only if it is at most 32 levels deep, the names on its path are non-empty and free of "/", and names and slashes take up at most 254 characters, the most that the copy in fs_resolve_path can take. |
| FsPaths.ResolveExact | kernel/fs/fs.c:523-542 | For every string: the result is a directory if and only if its path is the starting point's path followed by the names between the slashes. |
| FsPaths.WalkExact | kernel/fs/fs.c:532-539 | The look-up loop arrives at a directory if and only if its path is the start's path followed by the tokens. |
| FsDeep.LongPathFails | kernel/fs/fs.c:527-529 | After three directories of 63 characters and one of 62 have been made and entered from fs_init, the working directory's own path of 255 characters cannot be resolved. |
| FsDeep.FifthLevelOverruns | kernel/fs/fs.c:221-225 | From fs_init down four levels of 62 characters every step fits; the step into a fifth, which has been made, overruns the cached-path buffer. |
| FsDeep.Descend | kernel/fs/fs.c:233-378 | From any valid state, making and entering directories along a path that fits succeeds and leads to that path. |
| FsPaths.UpAlwaysFits | kernel/fs/fs.c:248-265 | In every valid state the path of the directory above fits the cached-path buffer. |
| FsPaths.CdFitsExactly | kernel/fs/fs.c:221-225 | Entering a directory fits the cached-path buffer if and only if the last 32 names on its path and their slashes have less than 256 characters. |
| FsPaths.CachedPathAgrees | kernel/fs/fs.c:201-231 | In every valid state the cached path, the recomputed path and the fs_getcwd string are equal and fit the 256-byte buffer. |
| FsPaths.SlashedTokens | kernel/fs/fs.c:569-572 | Cutting the joined path at the slashes gives the names back. |
| FileSystem.Filesystem.constructor | kernel/fs/fs.c:8-93 | The freshly initialised filesystem with a zeroed data area. |
| FileSystem.Filesystem.FindFileInDir | kernel/fs/fs.c:95-102 | The first entry with that parent and name. |
| FileSystem.Filesystem.CreateFile | kernel/fs/fs.c:104-123 | New state and status as the model's creation, for every name that is not stored or fits its field. |
| FileSystem.Filesystem.WriteFile | kernel/fs/fs.c:125-144 | New table, data area and status as the model's write. |
| FileSystem.Filesystem.StoreFile | kernel/fs/fs.c:133-141 | The bytes in place, the new size, and data_usage raised if the file now ends behind it. |
| FileSystem.Filesystem.ReadFile | kernel/fs/fs.c:146-153 | The file's bytes at the front of the caller's buffer, the rest of the buffer untouched. |
| FileSystem.Filesystem.RebuildCurrentPath | kernel/fs/fs.c:201-231 | The 256-byte buffer holds "/" followed by the names on the way down, joined by "/", for every path that fits. |
| FileSystem.Filesystem.ChangeDirectory | kernel/fs/fs.c:233-297 | New state and status as the model's change of directory, the new path in the buffer, for every path that fits. |
| FileSystem.Filesystem.MakeDirectory | kernel/fs/fs.c:299-378 | New state and status as the model's creation of a directory, in the order of the code's checks. |
| FileSystem.Filesystem.SwapDelete | kernel/fs/fs.c:384-398 | The in-place renumbering, swap and shortening give the model's table. |
| FileSystem.Filesystem.RenumberParents | kernel/fs/fs.c:387-391 | Every reference to the last entry now names the freed slot, and no other entry changes. |
| FileSystem.Filesystem.DeleteFile | kernel/fs/fs.c:380-400 | New state and status as the model's deletion; the invariant survives a childless one. |
| FileSystem.Filesystem.RemoveDirectory | kernel/fs/fs.c:402-426 | New state and status as the model's removal; the invariant always survives. |
| FileSystem.Filesystem.CopyFile | kernel/fs/fs.c:450-455 | New state and status as the model's copy. |
| FileSystem.Filesystem.MoveFile | kernel/fs/fs.c:457-478 | New state and status as the model's move, through create, read, write and delete. |
| FileSystem.Filesystem.TouchFile | kernel/fs/fs.c:512-521 | New state and status as the model's touch. |
| FileSystem.Filesystem.ResolvePath | kernel/fs/fs.c:523-542 | The directory that the path's tokens lead to, from the root or the working directory. |
| FileSystem.Filesystem.GetCwd | kernel/fs/fs.c:545-577 | The path with "/" before every name is written at the start of the caller's memory, and only then compared with the size of the buffer. |
| FileSystem.OverrunExactly | kernel/fs/fs.c:568-574 | Memory behind a buffer of the caller's size keeps its content, whatever it was, if and only if the path and its terminator fit the buffer. |
| FileSystem.Filesystem.StackNames | kernel/fs/fs.c:555-566 | The names on the way up, at most 32; the test for a parent cycle never fires. |
| EditorLaws.InsertIsFlat | kernel/editor/editor.c:551-564 | Inserting puts the character at the cursor of the flat text, unless the line has 255 characters. |
| EditorLaws.DeleteIsFlat | kernel/editor/editor.c:566-576 | Away from column 0 deleting removes the character before the cursor of the flat text. |
| EditorLaws.DeleteUnderIsFlat | kernel/editor/editor.c:975-986 | The x key removes the character under the cursor of the flat text. |
| EditorLaws.NewLineIsFlat | kernel/editor/editor.c:578-600 | A new line is a newline inserted at the cursor of the flat text, unless there are 999 lines. |
| EditorLaws.InsertDelete | kernel/editor/editor.c:551-576 | Inserting and deleting again restores lines and cursor. |
| EditorLaws.FlatDetermines | kernel/editor/editor.c:551-600 | The flat text determines the lines, so the refinement loses nothing. |
| EditorLaws.SaveExact | kernel/editor/editor.c:472-497 | The saved bytes are the whole text if and only if it has less than 4095 characters, or 4095 with an empty last line. |
| EditorLaws.SaveBound | kernel/editor/editor.c:473-486 | The save loop stays inside its 4096-byte buffer. |
| EditorLaws.SaveGreedy | kernel/editor/editor.c:473-486 | For every buffer the saved text consists of the lines kept, and a line is kept if and only if it fits behind those kept before it with two bytes to spare. |
| EditorLaws.SaveLoad | kernel/editor/editor.c:437-497 | For a buffer whose text fits the save buffer, loading what was saved gives all lines but the last. |
| EditorLaws.SaveLoadAny | kernel/editor/editor.c:437-497 | For every buffer, loading what was saved gives the lines before the last that the save loop found room for, or one empty line. |
| EditorLaws.SaveLoadExact | kernel/editor/editor.c:437-497 | Saving and loading gives the lines back if and only if they are one empty line. |
| EditorLaws.CyclesLoseLines | kernel/editor/editor.c:437-497 | For every buffer, the first round of saving and loading leaves the lines found room for, each further round takes off the last line, and in the end one empty line is left. |
| EditorLaws.LoadExact | kernel/editor/editor.c:448-462 | Loading any text gives its terminated lines, each cut to 255 characters, at most 1000 of them. |
| EditorLaws.PiecesAreLines | kernel/editor/editor.c:448-462 | The terminated lines of any text, glued to the newlines and NULs that end them, and the unterminated rest make up the text. |
| EditorRuns.EveryRun | kernel/editor/editor.c:602-1045 | For every valid filesystem, usable name, opening choice and key sequence: the cursor stays in the text, at most 1000 lines of at most 255 characters, the view starts at or above the cursor, an unmodified buffer has the lines last loaded or saved, and the filesystem stays valid. |
| EditorRuns.KeyKeeps | kernel/editor/editor.c:696-1045 | One round of the key loop keeps that invariant and reads at least one character. |
| EditorRuns.QuitDropsNothing | kernel/editor/editor.c:1004-1012 | The command q leaves the editor exactly when the buffer is unmodified, and then its lines are those last loaded or saved. |
| EditorKeys.ArrowKeys | kernel/editor/editor.c:768-826 | Up and down change the row by one and cut the column to the line, right and left change the column by one, none leaves the text; the view follows by the least amount, nothing else changes, and any other sequence only leaves insert mode. |
| EditorKeys.EscapeKeys | kernel/editor/editor.c:768-826 | ESC with any other byte behind it leaves insert mode and does nothing else. |
| EditorKeys.InsertKeys | kernel/editor/editor.c:900-909 | Every key of insert mode on the flat text: where it goes in or what it takes away, and exactly when it does nothing (255 characters, 999 lines, column 0, other control characters). |
| EditorKeys.CommandKeys | kernel/editor/editor.c:911-986 | Every key of command mode but the colon, on cursor, mode and flat text; unknown keys change nothing. |
| EditorKeys.Commands | kernel/editor/editor.c:988-1035 | For every command line: w and wq write the text, which then reads back, wq leaves only after a write that succeeded, q only from an unmodified buffer, q! always, and every other command stays and changes nothing. |
| EditorKeys.CommandWaits | kernel/editor/editor.c:989-996 | A command line that is not finished changes nothing. |
| EditorKeys.Starts | kernel/editor/editor.c:602-689 | The buffer after every opening choice: the lines of the first 4095 bytes, one empty modified line for 3, and for 2 insert mode with the cursor at the end of the text, on a line of its own if there is room. |
| EditorKeys.KeyShows | kernel/editor/editor.c:578-600 | A displayed cursor leaves the 20 lines shown if and only if the key adds a line below the last of them: Enter and o do not scroll. |
| EditorKeys.RunShows | kernel/editor/editor.c:696-1045 | Over a whole run the cursor stays displayed if and only if no key does that. |
| EditorKeys.DownShows | kernel/editor/editor.c:789-800 | A move down always brings the cursor into view again. |
| EditorRuns.SaveStores | kernel/editor/editor.c:472-497 | A successful save leaves the text in the file, where it reads back; a failed one changes nothing; either way the filesystem stays valid. |
| EditorRuns.SaveKeepsOthers | kernel/editor/editor.c:488-490 | A save that does not enlarge a file in the middle of the data changes the file's path in the map and no other. |
| EditorRuns.SaveHarmless | kernel/editor/editor.c:488-490 | No text of the saved length can damage another file if and only if the file's place for it meets no byte of another file. |
| EditorTyping.SaveClobbers | kernel/editor/editor.c:602-1045 | From any filesystem with room: after one byte has been written to each of two new files, opening the first, typing two characters and saving changes what the second reads as. |
| EditorTyping.TypingExact | kernel/editor/editor.c:900-909 | Typing a text inserts exactly that text at the cursor of the flat text if and only if every character finds its line below 255 characters and every newline the buffer below 999 lines. |
| EditorTyping.TypedFlat | kernel/editor/editor.c:900-909 | With that room the cursor ends behind the inserted text. |
| EditorTyping.RunTypes | kernel/editor/editor.c:764-909 | In insert mode the key loop takes a text of printable characters and newlines key by key. |
| EditorRuns.BoundedUsable | kernel/fs/fs.h:51 | While at most 255 files have been created, every name that fits can be saved under. |
| EditorRuns.SaveThenReopen | kernel/editor/editor.c:437-497 | What a session saves is what the next one loads: the lines before the last that were found room for. |
| Editor.LineEditor.InsertChar | kernel/editor/editor.c:551-564 | The shifted array holds the model's buffer. |
| Editor.LineEditor.DeleteChar | kernel/editor/editor.c:566-576 | The shifted array holds the model's buffer. |
| Editor.LineEditor.DeleteUnder | kernel/editor/editor.c:975-986 | The shifted array holds the model's buffer. |
| Editor.LineEditor.NewLine | kernel/editor/editor.c:578-600 | The rows moved down and the split row hold the model's buffer. |
| Editor.LineEditor.MoveUp | kernel/editor/editor.c:776-786 | Cursor and view as in the model; the text is untouched. |
| Editor.LineEditor.MoveDown | kernel/editor/editor.c:790-800 | Cursor and view as in the model; the text is untouched. |
| Editor.LineEditor.MoveLeft | kernel/editor/editor.c:812-816 | The cursor moves left unless it is at column 0. |
| Editor.LineEditor.MoveRight | kernel/editor/editor.c:803-810 | The cursor moves right unless it is at the end of the line. |
| Editor.LineEditor.ParseLines | kernel/editor/editor.c:448-462 | The rows hold what the load loop collects, which LoadExact characterises for every text. |
| Editor.LineEditor.LoadFile | kernel/editor/editor.c:437-470 | The rows hold the loaded lines, read through the filesystem's own read. |
| Editor.LineEditor.FillBuffer | kernel/editor/editor.c:473-486 | The buffer holds the save text, terminated inside its 4096 bytes. |
| Editor.LineEditor.SaveFile | kernel/editor/editor.c:472-497 | Filesystem, modified flag and result as in the model, through the filesystem's own write. |
| Editor.LineEditor.StoreText | kernel/editor/editor.c:488 | The write to the filesystem, with the filesystem as the model's write leaves it. |
| Editor.LineEditor.ReadCommand | kernel/editor/editor.c:989-997 | The command typed up to the first Enter or 15 characters, with the character that ended it consumed. |
| Editor.LineEditor.RunCommand | kernel/editor/editor.c:988-1035 | Outcome of a typed command: saved, left, refused or unknown, as in the model. |
| Editor.LineEditor.PressKey | kernel/editor/editor.c:913-986 | The keys of command mode that work on the buffer do to it what they do in the model; all others do nothing. |
| Editor.LineEditor.HandleEscape | kernel/editor/editor.c:768-826 | Outcome of an escape sequence: an arrow moves, anything else leaves insert mode. |
| Editor.LineEditor.HandleInsert | kernel/editor/editor.c:900-909 | A key in insert mode changes the buffer as in the model and nothing else of the session. |
| Editor.LineEditor.HandleCommand | kernel/editor/editor.c:911-1043 | Outcome of a key in command mode. |
| Editor.LineEditor.HandleKey | kernel/editor/editor.c:764-1044 | One key, with everything it reads, has the model's outcome. |
| Editor.LineEditor.KeyLoop | kernel/editor/editor.c:696-1045 | The loop ends in the session the model's run ends in and keeps its invariant. |
| Editor.LineEditor.Open | kernel/editor/editor.c:602-689 | The session after the opening dialogue, for every choice. |
| Editor.LineEditor.GoToEnd | kernel/editor/editor.c:648-655 | Appending starts in insert mode at the end of the last line, or on a new line if that one is not empty. |
| Editor.LineEditor.constructor | kernel/editor/editor.c:603-612 | The cleared editor structure as an empty buffer. |
| HighlightLaws.Lossless | kernel/editor/editor.c:184-390 | For every line and each of the three languages, the output without its markers is the line number, the line and a newline. |
| HighlightLaws.MarkersAlternate | kernel/editor/editor.c:184-390 | Open and close markers alternate with matching kinds; only an unfinished block comment or string of C stays open, and it ends the line. |
| HighlightMeaning.MarkersFit | kernel/editor/editor.c:228-390 | A marked word is in the table of its kind, numbers, comments and strings start as such, and no listed word goes unmarked. |
| HighlightMeaning.DottedNeverMarked | kernel/editor/editor.c:38-47 | No highlighted instruction contains a dot, so the dotted table entries have no effect. |
| HighlightMeaning.BlockEndIsFirst | kernel/editor/editor.c:246-254 | A block comment ends behind the first star and slash of its body, or not on this line. |
| HighlightMeaning.QuoteEndIsFirst | kernel/editor/editor.c:259-268 | A string ends behind the first quote that no unhidden backslash precedes, or not on this line. |
| HighlightTokens.LexemeExact | kernel/editor/editor.c:228-390 | At every place the grammar (comments to their end, strings to the first unhidden quote, maximal words and numbers up to their buffers, single characters) names one token, and it is the scanner's. |
| HighlightTokens.TokensExact | kernel/editor/editor.c:228-390 | A sequence of tokens is the one displayed for a line if and only if it reads the line under that grammar, in each of the three languages. |
| HighlightTokens.ShowExact | kernel/editor/editor.c:184-226 | A token is written character by character between the markers of its kind; the closing marker is missing exactly when the token is open. |
| Highlighter.PutDec | kernel/editor/editor.c:60-78 | Writes the decimal digits of every unsigned 32-bit number. |
| Highlighter.TakeRun | kernel/editor/editor.c:172-182 | The longest run of wanted characters that the buffer takes. |
| Highlighter.SignedRun | kernel/editor/editor.c:371-382 | A number with its sign, together at most 31 characters. |
| Highlighter.PrintColored | kernel/editor/editor.c:184-226 | The text and nothing else, in balanced output: bare, or first an opening and last a closing marker of the kind. |
| Highlighter.IsListed | kernel/editor/editor.c:124-131 | Whether the table contains the word. |
| Highlighter.BlockText | kernel/editor/editor.c:243-254 | The text of the block comment, where it ends and whether it is closed. |
| Highlighter.QuotedText | kernel/editor/editor.c:255-268 | The text of the string literal, where it ends and whether it is closed. |
| Highlighter.HighlightC | kernel/editor/editor.c:228-300 | The scanner writes the model's output for C. |
| Highlighter.HighlightVerilog | kernel/editor/editor.c:302-344 | The scanner writes the model's output for Verilog. |
| Highlighter.HighlightRiscv | kernel/editor/editor.c:346-390 | The scanner writes the model's output for RISC-V assembly. |
| CStrings.TokensAreMaximalRuns | lib/string.c:161-180 | strtok's tokens are the maximal delimiter-free runs of the string, in order and with nothing but delimiters between them. |
| CStrings.TokensOfRuns | lib/string.c:161-180 | Conversely, a string woven from separators and delimiter-free runs has exactly those runs as its tokens. |
| CStrings.TakeToken | lib/string.c:166-177 | One round in place: the token found, the delimiter behind it overwritten, the rest still to be scanned. |
| CStrings.SkipDelimiters | lib/string.c:166-167 | The first character behind the leading delimiters, or the terminator exactly when there is none. |
| CStrings.SkipToken | lib/string.c:171 | The end of the delimiter-free run. |
| CStrings.Tokenizer.constructor | lib/string.c:163 | The first call on a string. |
| CStrings.Tokenizer.Next | lib/string.c:161-180 | A strtok call returns the next token and moves the static cursor. |
| StringLib.Strcmp | lib/string.c:29-35 | Zero exactly for equal strings, negative exactly when the first sorts before the second. |
| StringLib.Strchr | lib/string.c:104-111 | The first occurrence, or the terminator for NUL, or nothing. |
| StringLib.StrncpyStops | lib/string.c:127-132 | strncpy writes no more than its count if and only if the source is shorter; otherwise it goes on for 2^64 - 1 bytes. |
| StringLib.Strncpy | lib/string.c:127-132 | A source shorter than the count is stored with its terminator and padded with NULs, and nothing behind the count is touched. |
| StringLib.Strstr | lib/string.c:64-86 | The leftmost match, or nothing exactly when there is none. |
| StringLib.Itoa | lib/string.c:134-159 | The buffer holds the number's digits in the base; for a negative number, digits counted down from '0' and no sign. |
| StringLib.PutReversed | lib/string.c:146-150 | The digits come out last one first. |
| StringLib.ReverseInPlace | lib/string.c:152-157 | The two-pointer swap reverses the digits. |
| StringLib.DigitsRoundTrip | lib/string.c:134-159 | Evaluating the digits gives the number back, in every base from 2 to 36. |
| StringLib.DigitTable | lib/string.c:146-149 | The characters for 0 to 35 are the numerals and then the small letters. |
| StringLib.NegativeDigits | lib/string.c:146-149 | The characters written for a negative number, read as distances from '0', spell that number in every base. |
| Shell.ParseCommand | kernel/shell/shell.c:246-278 | The arguments are the first max_args maximal blank-free runs of the input, each terminated in the buffer. |
| Shell.AddArgument | kernel/shell/shell.c:252-274 | One more argument recorded and terminated, the earlier ones intact, the rest still to be split. |
| Shell.SimpleAtoi | kernel/shell/shell.c:336-351 | The value of the leading digits after an optional minus sign. |
| Shell.AtoiInvertsItoa | kernel/shell/shell.c:336-351 | simple_atoi inverts base-10 itoa on an int if and only if it is not negative; every negative one reads back as 0. |
| Shell.AtoiReadsDigits | kernel/shell/shell.c:336-351 | The decimal digits of a natural number read back as that number, with a minus sign in front as its negative. |
| Shell.AtoiExact | kernel/shell/shell.c:336-351 | On any text: the value of the leading decimal digits, negated after a minus sign, whatever stands behind them. |
| Shell.AtoiOverflow | kernel/shell/shell.c:345-348 | No value on the way exceeds a 32-bit int if and only if the value of the digits does not. |
| Shell.AtoiStaysBelow | kernel/shell/shell.c:345-348 | No intermediate value of that conversion exceeds the number, so an int read back cannot overflow. |

## Left out

- Allocator.KernelHeap.Kfree: excludes pointers into the heap that are not the payload of a listed block, because the code then reads whatever bytes stand before the pointer.
- Allocator.KernelHeap.constructor: covers the first call of memory_init; a second call returns at once, and kmalloc before it is a kernel panic.
- The bytes of heap payloads and a user overwriting headers; headers are objects at heap offsets.
- FileSystem.Filesystem.CreateFile: excludes new names of 63 and more characters, for which strncpy does not stop (StringLib.StrncpyStops).
- FileSystem.Filesystem.WriteFile: excludes the same names and writes past the data area; FsRuns.BoundedFits shows when there are none.
- FileSystem.Filesystem.CopyFile: excludes the same new names and writes past the data area.
- FileSystem.Filesystem.MoveFile: excludes the same new names and writes past the data area.
- FileSystem.Filesystem.TouchFile: excludes the same new names.
- FileSystem.Filesystem.ResolvePath: excludes paths of 255 and more characters, for which strncpy does not stop.
- FileSystem.Filesystem.ChangeDirectory: excludes entering directories whose path overruns the buffer of the cached path; FsPaths.CdFitsExactly says which. What the overrun does to the data area behind the buffer is not modelled.
- FileSystem.Filesystem.RebuildCurrentPath: puts the text together before it is stored, where the code appends to the buffer name by name; the fallback for an empty path cannot be reached.
- FileSystem.Filesystem.GetCwd: likewise stores the finished text, in memory that extends far enough behind the caller's buffer to show the overrun.
- FsRuns.RunsRefine: claims nothing after a write that enlarges a file in the middle of the data, a deletion from under children, or a name or path that does not fit; FsLimits, FsPaths and StringLib say what those are.
- NUL inside names: the model's strings stand for C strings, which have none.
- Time stamps, permissions, fs_list_directory, fs_find_file, fs_grep_file and fs_get_current_path: no further state or algorithm.
- fs_move_file's clean-up after a failing write: proved unreachable, so not modelled.
- EditorRuns.EveryRun: a pause for "any key" ends at the end of the input, and a key cut off by it has no effect. The name must fit its buffers and have 4096 bytes of the data area to be saved in (EditorRuns.BoundedUsable).
- The editor's read-only branch: read_only is always false, since the inner variable choice hides the outer one.
- Screens, status lines, help texts and debug output; only the highlighters' output is modelled, as events. The plain-text display and detect_language are left out, and the word tables are parameters.
- Shell.SimpleAtoi: unbounded integers; what a 32-bit int does beyond its range is not modelled. Shell.AtoiOverflow says exactly when that is never reached.
- StringLib.Strncpy: excludes sources that are not shorter than the count, on which the code does not stop (StringLib.StrncpyStops).
- UART, boot code, the other shell commands, command history and the shell's own highlighter.
