# A model of a teaching kernel

The repository is an x86 kernel for teaching with a handful of user programs. Beneath its device code lie
a few stateful algorithms, and this project models those and proves what they are for:

* the game **2048** (`Lines`, `Board`, `Spawn`, `Rules`, `Conservation`, `Game`, `Plays`) with the **heap** it lives in (`Heap`);
* the read-only **file system** with `cat` (`FileSystem`, `Directory`), and the streaming **grep** (`Lookup`, `Grep`);
* the three text **screens** (`Screen`, `Console`), and the echo of the keyboard on them (`Echo`);
* the **process tree** and the round-robin **scheduler** (`Kernel`, `Chains`, `Processes`, `Limits`, `Scheduler`);
* the **line discipline** of the keyboard (`LineEditor`, `Keyboard`);
* the **number printers** (`Numerals`, `Printing`).

`Common` and `Strings` hold what several of them share. Each part has two layers. The imperative layer follows the source:
classes for its objects and global variables, arrays for the memory it changes in place, its loops with their order of
scanning. Every method there is proved against a function on values. The second layer proves, about those functions, what
holds of every input, every run and every interleaving. `dafny verify dfyconfig.toml` checks everything.

What these functions mean is fixed a second time without them: a move by rows, columns and walls (`Rules.MovesByWall`), a turn by
its character (`Rules.TurnByKey`), merging by its rule (`Lines.MergeIsTheRule`), a file by its blocks
(`FileSystem.ContentIsItsBlocks`), a hit by what stands around it (`Lookup.ContainsExactly`), a typed character by the cell it
changes (`Screen.GlyphTyped`), the process tree by the parents in the control blocks (`Chains.AncestorsInRuns`).

## How the source is represented

* The four moves of 2048 are the same code four times, with rows and columns, and left and right, exchanged. They are one
  method `Move` over a direction. `move_w` and `move_a` scan a line away from the wall they push against, `move_s` and
  `move_d` scan towards it; both orders are kept (`PassNearFirst`, `PassFarFirst`). All four merge from the wall.
  The loops run over lists of cell indices, `Line(d, ...)`, in place of `get_cell` calls.
* `index_random`, a global variable, is a field of the game. A turn whose probing loop never ends has the outcome `Hung`.
* Video memory is one array of bytes with the addresses of the source, and the bytes in front of it that a wrong cursor reaches. Cursor positions, the process table, the control
  blocks and the table of terminals are fields of type `seq` that the methods reassign.
* Kernel stacks, registers and the return jump of `execute` and `halt` are a pair (esp, ebp): given to a step as what the running
  process has, and compared with what a step resumes.
* A terminal driver blocks in a loop until a line is ready. The model's `TerminalRead` starts after that loop.
* Integers are unbounded where `Plays.PlayFitsInt32` or a precondition shows that the source's do not overflow. Truncation is written
  out: `malloc` keeps the number of units modulo 256, `read_dentry_by_name` the difference of two names modulo 256.

## Where the code does less than it says

The code is modelled as it is. Where a comment, a name or the evident purpose promises more, the exact condition is proved.

* `rand_new_tile` says it needs an empty cell; it needs one that its table of ten constants names (`Plays.TurnHangsExactly`,
  `Plays.PlayHangsWithRoom`). That is the same on boards of up to four cells only (`Spawn.HolesAreNamedExactly`,
  `Plays.SmallBoardsNeverHang`). Its rule for a 4 in one case of ten never applies (`Spawn.EverySpawnIsTwo`).
* The game-over test answers "go on" on a board of holes only (`Board.LegalIsExact`); no play reaches one (`Plays.GameOverIsExact`).
* `malloc` spins at a gap that is too small (`Heap.SearchEndsExactly`, `Heap.SpinsWithRoom`), hands out too little from
  255 KB on (`Heap.RequestCovered`), and reads beyond its table, so that an extent can leave the heap
  (`Heap.RunInsideExactly`, `Heap.LeavesTheHeap`).
* `read_data` consults one block index more than it needs when a range ends on a block boundary (`FileSystem.ReadableExactly`,
  `FileSystem.FullBlockFails`).
* Names are compared in 31 of their 32 characters (`Directory.MatchIsExact`).
* `grep` cuts lines after 1024 bytes (`Lookup.GrepIsExact`).
* `execute` attaches a process to the displayed terminal rather than to the running one, uses the last number again when all
  slots are taken, and refuses after the process numbered 5, even if it was to start a terminal's shell
  (`Limits.ExecuteTreeExactly`, `Limits.ExecuteCoherentExactly`, `Limits.ShellCoherentExactly`). `Kernel.Enabled` leaves these
  steps out, and exactly these have to be left out (`Limits.StepKeepsExactly`); `Limits.TreeCanBreak` and
  `Limits.ShellCanBeRefused` are runs that lead to them.
* Ctrl-L clears the screen but not the line, so that backspace can move the cursor off the screen and write in front of it
  (`Echo.ClearIsSafeExactly`, `Echo.BackspaceAfterClear`), though never by more than 127 cells (`Echo.Run`, `Echo.FarthestAbove`).
* `pid` does not follow the scheduler (`Processes.PidKeptExactly`).
* One flag releases the readers of all terminals (`LineEditor.ReadableExactly`, `LineEditor.ReadOnOtherTerminalBlocks`).

## Model

| member | source | states |
|---|---|---|
| `Lines.SlideByPhases` | student-distrib/game.c:82-121 | push, merge, push is the functional slide: if a line holds the pairwise merged tiles of a line, in whatever places, pushing it gives compact(merge(compact)) |
| `Lines.MergeStep` | student-distrib/game.c:97-104 | one step of the merge loop: the cells before it are final, the rest still owes exactly its pairwise merge and the score of it, so no tile merges twice |
| `Lines.PackedWithTiles` | student-distrib/game.c:82-94 | a line with the same tiles in the same order and no hole before a tile is the compacted line, whatever the order of the swaps |
| `Lines.SlideChanges` | student-distrib/game.c:85-103 | a line changes exactly when some hole lies on the wall side of a tile or two neighbours of the pushed line merge |
| `Lines.MergeShortens` | student-distrib/game.c:98-103 | the merge loop leaves fewer tiles exactly when two neighbouring tiles are equal; otherwise it changes and scores nothing |
| `Lines.MergeIsTheRule` | student-distrib/game.c:96-104 | a list is the merged tiles of a line if and only if it arises by the rule of the game: from the wall, the next two tiles become their double if they are equal, and otherwise the next one stays |
| `Lines.SlideLayout` | student-distrib/game.c:82-121 | a slid line: the merged tiles at the wall, holes behind them, and as many cells as before |
| `Lines.NearFirstStep` | student-distrib/game.c:84-92 | what one swap of an away-from-the-wall scan does to the part of the line that is settled |
| `Lines.FarFirstStep` | student-distrib/game.c:137-145 | the same for the loops that scan towards the wall |
| `Board.PhasesCompose` | student-distrib/game.c:82-121 | the three phases over all lines together are the move on the whole board |
| `Board.MovedFlag` | student-distrib/game.c:122-124 | `moved` is set in the first two phases exactly when the board changes |
| `Board.NothingToDo` | student-distrib/game.c:107 | a move that set no flag was the identity, so skipping the second push is right |
| `Board.ChangedBoardHasHole` | student-distrib/game.c:347-350 | after a move that changed the board some cell is empty: what `rand_new_tile` is promised |
| `Board.MoveMirrorSides` | student-distrib/game.c:233-284 | `move_d` is the mirror image of `move_a`, although both slide loops scan from left to right |
| `Board.MoveMirrorUpDown` | student-distrib/game.c:127-177 | `move_s` is the mirror image of `move_w`, although both slide loops scan downwards |
| `Board.MoveTranspose` | student-distrib/game.c:75-125 | `move_w` is the transpose of `move_a`, for boards that need not be square |
| `Board.LegalIsExact` | student-distrib/game.c:286-308 | the game-over test answers 1 if and only if some move changes the board, or the board is nothing but holes |
| `Board.TileAndHoleMove` | student-distrib/game.c:291-293 | a tile and a hole anywhere on the board: some move changes it |
| `Board.LinesDisjoint` | student-distrib/game.c:82-94 | different lines of a direction share no cell, which is why they can be treated one after the other |
| `Rules.MovesByWall` | student-distrib/game.c:75-284 | each move by rows, columns and walls: every column read from the top (up) or bottom (down), every row read from the left or right is the slid line |
| `Game.Game.GetCell` | student-distrib/game.c:69-73 | a cell is found exactly for rows and columns of the board, at row times columns plus column |
| `Game.Game.Pull` | student-distrib/game.c:85-91 | one conditional swap, and that the flag tells whether it happened |
| `Game.Game.PassNearFirst` | student-distrib/game.c:84-92 | one pass keeps the tiles and their order and settles one more far cell; it moves nothing on packed lines |
| `Game.Game.PassFarFirst` | student-distrib/game.c:137-145 | the same for a scan towards the wall |
| `Game.Game.PackNearFirst` | student-distrib/game.c:83-93 | length - 1 passes compact the line; the flag is set exactly when it was not packed |
| `Game.Game.PackFarFirst` | student-distrib/game.c:136-146 | the same for the scan towards the wall |
| `Game.Game.MergePair` | student-distrib/game.c:98-103 | one merge of equal tiles and its score |
| `Game.Game.MergeLine` | student-distrib/game.c:97-104 | the merge loop: tiles merged in pairs from the wall, score increased by the sum of the created tiles |
| `Game.Game.PackAll` | student-distrib/game.c:82-94 | all lines compacted, the flag set exactly if one was not |
| `Game.Game.MergeLineOf` | student-distrib/game.c:97-104 | merging one line leaves the other lines as they were |
| `Game.Game.MergeAll` | student-distrib/game.c:96-105 | all lines merged; score increased by the score of the move |
| `Game.Game.Move` | student-distrib/game.c:75-284 | each of the four moves leaves every line slid to its wall, adds exactly the merged values to the score, and returns 1 if and only if the board changed |
| `Game.Game.RandNewTile` | student-distrib/game.c:322-369 | fills the first empty cell the table names behind the current index with the tile of the rule; needs a table entry that names an empty cell |
| `Game.Game.LegalMoveCheck` | student-distrib/game.c:286-308 | 1 exactly when there is a hole or an equal pair of neighbours |
| `Game.Game.Push` | student-distrib/game.c:503-506 | a move, and one new tile exactly if it changed the board |
| `Game.Game.ProcessTurn` | student-distrib/game.c:455-514 | one key takes board, score, table index and allocation table to the outcome of the turn on values; a turn that ends the game frees both blocks, any other frees nothing |
| `Rules.TurnByKey` | student-distrib/game.c:459-501 | the turn by character and board: w, s, a and d slide all lines to the top, bottom, left and right wall; q, and no other character, quits; every other character leaves the board |
| `Game.Game.Destroy` | student-distrib/game.c:62-67 | frees the cells and the structure |
| `Plays.MakeGame` | student-distrib/game.c:38-58 | a game of empty cells if both requests are granted; its two blocks, freed, give back the table from before |
| `Plays.TakeTurns` | student-distrib/2048.c:43-47 | the driver loop: it ends exactly when the play does, having freed both blocks |
| `Plays.SmallBoardsAreAnswered` | student-distrib/2048.c:19-30 | for the boards that the driver admits both requests get an answer, whatever the table |
| `Plays.Start2048` | student-distrib/2048.c:30-51 | a whole play, from any allocation table: ended by quit or game over it leaves the table as it found it; a refused second request leaks the first block |
| `Spawn.EverySpawnIsTwo` | student-distrib/game.c:351-368 | no entry of the table is 0 or 1 modulo 20, so every new tile is a 2 |
| `Spawn.ProbingStops` | student-distrib/game.c:354-360 | the probing loop stops if and only if some entry names an empty cell, and then within ten probes |
| `Spawn.SpawnFillsOneHole` | student-distrib/game.c:354-368 | exactly one cell changes; it was empty and holds a 2 |
| `Spawn.NextHitUnique` | student-distrib/game.c:354-360 | where the probing stops: the first position behind the index that names an empty cell |
| `Spawn.SpawnedExactly` | student-distrib/game.c:353-368 | the cell filled and the index kept: the first entry behind the index, going round the table, that names an empty cell |
| `Spawn.TableByNumber` | student-distrib/game.c:351 | the ten constants, read off a board larger than all of them |
| `Spawn.ProbedOnFourByFour` | student-distrib/game.c:351-356 | the ten cells that are probed on a board of 4 x 4 |
| `Plays.FirstTileOfFour` | student-distrib/game.c:351-368 | the first tile of a 4 x 4 play is a 2 in cell 11 |
| `Conservation.MergeConserves` | student-distrib/game.c:98-102 | merging keeps the sum of the tiles and raises the sum of (k-1)*2^k over the tiles by exactly the score |
| `Conservation.MergeBounded` | student-distrib/game.c:98-102 | merging keeps, for every k, at most n+1-k tiles of at least 2^k on n cells |
| `Conservation.PowersByDoubling` | student-distrib/game.c:99-102 | what a tile of a play is: 2, or the double of one |
| `Conservation.WeighedByHalves` | student-distrib/game.c:99-102 | what the sums weigh: a tile counts its value, and in the potential twice what its half counts and its own value, so 0 for a 2 |
| `Conservation.LargeTilesCounted` | student-distrib/game.c:99-102 | the count of large tiles is the number of cells with at least 2^k |
| `Conservation.MoveSound` | student-distrib/game.c:75-284 | every move keeps: cells are holes or powers of two, tile sum 2 * tiles spawned, score equal to the potential, bound on large tiles |
| `Conservation.SpawnSound` | student-distrib/game.c:362-368 | so does a new 2 in an empty cell |
| `Conservation.LargestTile` | student-distrib/game.c:75-284 | no tile of such a board exceeds 2^n |
| `Conservation.LargestScore` | student-distrib/game.c:101 | nor its score (n-2)*2^(n+1)+4 |
| `Plays.PlaySound` | student-distrib/game.c:455-514 | all of this in every play, for every sequence of keys and board size |
| `Plays.PlayBounds` | student-distrib/game.c:455-514 | the two bounds in every play |
| `Plays.PlayFitsInt32` | student-distrib/game.c:99-101 | on up to 25 cells no tile and no score leaves the range of int32 |
| `Plays.GameOverIsExact` | student-distrib/game.c:508-513 | a turn reports game over exactly when no move would change the board |
| `Plays.TurnHangsExactly` | student-distrib/game.c:503-504 | a turn never returns if and only if its key moves the board and no table entry, however often the table is walked through, names a cell that is then empty |
| `Plays.PlayHangsWithRoom` | student-distrib/game.c:351-360 | such a play exists from the start of a 1 x 5 game: left, left, right, left, right, with two holes on the board |
| `Spawn.HolesAreNamedExactly` | student-distrib/game.c:351-360 | every hole-bearing board of n cells can take a new tile if and only if n is at most 4 |
| `Plays.SmallBoardsNeverHang` | student-distrib/game.c:503-504 | on such boards no play hangs |
| `Plays.PlayStable` | student-distrib/2048.c:43-47 | keys after the end of a play are not looked at |
| `Heap.Allocator.constructor` | student-distrib/malloc.c:17-23 | an empty table |
| `Heap.Allocator.Malloc` | student-distrib/malloc.c:30-56 | the scan over allocation starts, reading on behind the table as the source does: answers NULL or the first gap reached, and changes that one entry; needs a search that ends |
| `Heap.Allocator.Free` | student-distrib/malloc.c:63-69 | zeroes the entry of the block |
| `Heap.SearchEndsExactly` | student-distrib/malloc.c:35-48 | the search loop ends if and only if there is no gap or all bytes it reads for the first one, those of the table and those behind it, are zero |
| `Heap.SmallRequestEnds` | student-distrib/malloc.c:31-48 | a request for less than 1024 bytes always gets an answer |
| `Heap.FirstGapIsLowestFree` | student-distrib/malloc.c:35-38 | the gap that the search reaches is the lowest unit that belongs to no allocation |
| `Heap.NoRoomExactly` | student-distrib/malloc.c:49-50 | NULL is answered if and only if every unit of the heap belongs to an allocation |
| `Heap.SpinsWithRoom` | student-distrib/malloc.c:39-47 | after two small requests and a free a request for two units spins with 4094 units free |
| `Heap.MallocDisjoint` | student-distrib/malloc.c:52-55 | the extent handed out overlaps no live one; it lies inside the heap if and only if it ends within the table |
| `Heap.FreeAfterMalloc` | student-distrib/malloc.c:52-69 | free(malloc(n)) restores the table |
| `Heap.BytesApart` | student-distrib/malloc.c:31-69 | no byte from 8 MB up to 12 MB belongs to two blocks, and the address handed out is the first byte of its block |
| `Heap.RequestCovered` | student-distrib/malloc.c:31 | the extent is as large as the request exactly below 255 KB, and then by the least number of units that is larger than the request |
| `Heap.RunDisjoint` | student-distrib/malloc.c:30-69 | in every run of mallocs and frees, whatever lies behind the table, all extents stay disjoint |
| `Heap.RunInsideExactly` | student-distrib/malloc.c:42-55 | such a run keeps all extents inside the heap if and only if none of its requests reaches from the first gap beyond the table |
| `Heap.LeavesTheHeap` | student-distrib/malloc.c:42-52 | 21 blocks of 194 KB and a request for two units: with a zero byte behind the table the extent leaves the heap, otherwise the search spins |
| `Heap.BlockSurvives` | student-distrib/malloc.c:30-69 | a block keeps its extent until it is freed itself |
| `FileSystem.ContentAt` | student-distrib/filesystem.c:228-240 | byte j of a file is byte j mod 4096 of its block j / 4096 |
| `FileSystem.ContentIsItsBlocks` | student-distrib/filesystem.c:228-240 | that block is the one whose number is entry j / 4096 of the index |
| `FileSystem.MemMove` | student-distrib/lib.c:626-627 | a plain copy; the assembly of the original is not modelled |
| `FileSystem.CopyChunk` | student-distrib/filesystem.c:231-241 | one round of the loop extends the copied slice by one stretch of a block |
| `FileSystem.ReadBlocks` | student-distrib/filesystem.c:227-246 | the loop over blocks: -1 if a consulted index is bad, otherwise the slice of the concatenated blocks |
| `FileSystem.ReadData` | student-distrib/filesystem.c:215-248 | min(length, data_length - offset) bytes equal to that slice, each the byte of the block that the index names for it; nothing outside the given range written |
| `FileSystem.ReadResultByCase` | student-distrib/filesystem.c:216-246 | the result by case: 0 behind the end, -1 for a missing inode or a bad index up to that of the byte behind the last, else the number of bytes there are |
| `FileSystem.ReadableExactly` | student-distrib/filesystem.c:228-236 | no read of a file ever fails if and only if all indices it can consult are good, one more than needed when the last block is full |
| `FileSystem.FullBlockFails` | student-distrib/filesystem.c:228-236 | a file of one full, valid block whose end cannot be read |
| `FileSystem.OpenFile.FileRead` | student-distrib/filesystem.c:113-128 | reads on from the position and advances it by what was read |
| `FileSystem.PiecesJoin` | student-distrib/filesystem.c:113-128 | consecutive reads of any sizes concatenate to a stretch of the file |
| `FileSystem.ReadIsNextPiece` | student-distrib/filesystem.c:121-125 | each read of a readable file returns the next of these pieces |
| `FileSystem.PiecesByRead` | student-distrib/filesystem.c:113-128 | the pieces are what reads return: the first by its result, the next ones behind it |
| `FileSystem.Cat` | syscalls/ece391cat.c:21-30 | ends, having written exactly the file; a prefix of it if a read fails |
| `Directory.StrNCmp` | student-distrib/lib.c:663-681 | 0 exactly when the strings agree up to n characters, otherwise the difference of the first two characters that differ |
| `Directory.StrNCpy` | student-distrib/lib.c:713-728 | the string cut to n characters and padded with NULs |
| `Directory.PaddedByPlace` | student-distrib/lib.c:713-728 | place by place: the string, and NUL behind it |
| `Directory.Dentry.ReadByName` | student-distrib/filesystem.c:172-187 | finds the first entry that agrees in 31 characters; a failed lookup changes nothing |
| `Directory.OwnNameFound` | student-distrib/filesystem.c:174-185 | looking up the name of an entry finds that entry if and only if no earlier one has the same first 31 characters |
| `Directory.OwnEntryFound` | student-distrib/filesystem.c:174-185 | and then yields the type and the inode of that entry |
| `Directory.MissingExactly` | student-distrib/filesystem.c:174-187 | a lookup fails if and only if no entry agrees with the name in 31 characters |
| `Directory.MatchIsExact` | student-distrib/filesystem.c:176-177 | only the requested name can match if and only if it is shorter than 31 characters |
| `Strings.StrLen` | syscalls/ece391support.c:6-12 | the length of a string in memory |
| `Grep.StrNCmp` | syscalls/ece391support.c:35-46 | 0 exactly when the pattern occurs at the place |
| `Grep.StrCpy` | syscalls/ece391support.c:14-17 | copies a string down over its own memory |
| `Grep.SearchLine` | syscalls/ece391grep.c:41-51 | prints file name, colon, line and newline once if the line contains the pattern (`Lookup.ContainsExactly`), and nothing otherwise |
| `Grep.FindEnd` | syscalls/ece391grep.c:30-32 | the first newline or the end of the data |
| `Grep.NextLine` | syscalls/ece391grep.c:30-33 | whether a line ends with its newline, with the file or with a full buffer, or is unfinished |
| `Grep.FinishLine` | syscalls/ece391grep.c:40-52 | ending a line and searching it settles exactly what that line contributes to the output |
| `Grep.ShiftLine` | syscalls/ece391grep.c:34-38 | the unfinished line moved to the start of the buffer |
| `Grep.SearchBuffer` | syscalls/ece391grep.c:28-57 | what is printed for one buffer, together with what is still owed for the kept part and the rest of the file, is what the whole text asks for |
| `Grep.Refill` | syscalls/ece391grep.c:22-27 | refilling behind the kept bytes continues the text without loss or repetition |
| `Grep.GrepFile` | syscalls/ece391grep.c:20-60 | for a readable file without NUL bytes the outer loop ends and the output is that of the cut text, however lines straddle refills |
| `Grep.DoOneFile` | syscalls/ece391grep.c:10-66 | the same with the failure to open; after a failed read part of the right output and a complaint |
| `Lookup.ContainsExactly` | syscalls/ece391grep.c:41-45 | a line contains a pattern if and only if it has something, possibly nothing, then the pattern, then something; the empty pattern is contained nowhere |
| `Lookup.LinesMakeText` | syscalls/ece391grep.c:30-32 | the lines are the text between newlines: with their newlines they are the text again |
| `Lookup.HitsOfOne` | syscalls/ece391grep.c:41-49 | a line is a hit if and only if it contains the pattern |
| `Lookup.HitsConcat` | syscalls/ece391grep.c:28-57 | hits keep their order and number |
| `Lookup.RenderOfOne` | syscalls/ece391grep.c:45-48 | a hit is printed as file name, colon, line, newline |
| `Lookup.RenderConcat` | syscalls/ece391grep.c:45-48 | and hits one after the other |
| `Lookup.HitsAreChunks` | syscalls/ece391grep.c:22-57 | for every text grep's hits are those of its lines with each line cut after every 1024 bytes |
| `Lookup.ChunkAt` | syscalls/ece391grep.c:22-57 | which bytes of a line each cut piece holds, and how many pieces there are |
| `Lookup.CutLosesHit` | syscalls/ece391grep.c:22-57 | a line of 1025 bytes whose hit is lost in the cut |
| `Lookup.ShortHitsSuffice` | syscalls/ece391grep.c:28-57 | cutting after 1024 bytes is harmless if no longer line contains the pattern |
| `Lookup.GrepIsExact` | syscalls/ece391grep.c:10-66 | the output is exactly the lines that contain the pattern, in order, if and only if no line of more than 1024 bytes contains it |
| `Lookup.RenderInjective` | syscalls/ece391grep.c:45-48 | distinct lists of lines print differently |
| `Console.Video.Clear` | student-distrib/lib.c:23-35 | the displayed screen blank, cursor at 0, 0, other screens unchanged |
| `Console.Video.ShiftRows` | student-distrib/lib.c:110-114 | rows copied up in place |
| `Console.Video.BlankLastRow` | student-distrib/lib.c:115-120 | last row blanked |
| `Console.Video.ScrollScreen` | student-distrib/lib.c:106-142 | one screen scrolled, the others unchanged |
| `Console.Video.PrintNewLine` | student-distrib/lib.c:151-168 | next row, scrolling at the bottom |
| `Console.Video.Advance` | student-distrib/lib.c:345-351 | the cursor one cell on, wrapped and scrolled, with the remainders of C |
| `Console.Video.PutGlyph` | student-distrib/lib.c:343-352 | character and attribute written, cursor advanced, wrapped and scrolled; with the cursor above the screen exactly two bytes in front of it are written and no cell |
| `Console.Video.Putc` | student-distrib/lib.c:331-376 | one character typed on the running terminal's screen (0) or the displayed one (1), no other screen touched; it is the step `Put` on values |
| `Console.Video.Puts` | student-distrib/lib.c:307-323 | a string typed up to its NUL, and its length |
| `Console.Video.TerminalWrite` | student-distrib/terminal.c:43-51 | all given characters typed on the screen of the running terminal, every other screen left alone, or -1 and no change |
| `Console.Video.Backspace` | student-distrib/lib.c:82-98 | the cell before the cursor blanked, over the start of a row if need be; from the top left corner the cursor leaves the screen, and exactly the two bytes in front of it are written |
| `Console.CellsApart` | student-distrib/lib.c:343-344 | no byte of video memory belongs to two cells of the screens |
| `Screen.TypedWindow` | student-distrib/lib.c:331-376 | typing on a screen is printing on endless paper seen through a window of 25 rows |
| `Screen.TypedAllWindow` | student-distrib/lib.c:307-323 | the same for whole texts |
| `Screen.ScreensShowPapers` | student-distrib/lib.c:23-168 | for any interleaving of clears and output on the three terminals each screen shows the bottom of its own paper |
| `Screen.ClearedScreenShowsPaper` | student-distrib/lib.c:23-35 | whatever was on it before, a cleared screen starts a fresh paper |
| `Screen.ErasedTyped` | student-distrib/lib.c:82-98 | backspace undoes a typed character if and only if the cell was blank and typing did not scroll |
| `Screen.ErasedInRange` | student-distrib/lib.c:84-91 | backspace keeps the cursor on the screen if and only if it was not in the top left corner |
| `Screen.GlyphTyped` | student-distrib/lib.c:342-352 | a character other than a line end: its cell, its attribute and the cursor, on all parts of the screen |
| `Screen.LineEndTyped` | student-distrib/lib.c:334-340 | newline and carriage return: the first column of the next row, scrolling from the last one |
| `Screen.ScrolledRow` | student-distrib/lib.c:110-120 | each row shows the one below it, the last one blanks |
| `Screen.CellErased` | student-distrib/lib.c:82-98 | the cell before the cursor blank, and the cursor there |
| `Screen.ClearedCells` | student-distrib/lib.c:23-35 | 2000 blanks with attribute 7 |
| `Screen.PaperHoldsText` | student-distrib/lib.c:331-376 | a text without line ends fills fresh paper row by row |
| `Screen.WindowShowsBottom` | student-distrib/lib.c:331-376 | the window shows the last 25 rows, or all there are and blanks |
| `Echo.ShowKey` | student-distrib/keyboard_handler.c:215-254 | the echo of a key: a character that the line takes is typed, one that it gives up is erased |
| `Echo.PressAndShow` | student-distrib/keyboard_handler.c:214-255 | a key other than Ctrl-L changes line and screen together |
| `Echo.PressKey` | student-distrib/keyboard_handler.c:202-255 | any key, Ctrl-L included, changes line and screen together as the step on values says |
| `Echo.EventsByCode` | student-distrib/keyboard_handler.c:202-206 | which keys clear the screen, and that all others go to the line |
| `Echo.ScreenShowsLine` | student-distrib/keyboard_handler.c:214-232 | whatever is typed and taken back, a screen that was clear shows exactly the line, with the cursor behind it |
| `Echo.EnterShown` | student-distrib/keyboard_handler.c:234-255 | enter leaves it there and goes to the next row |
| `Echo.Run` | student-distrib/keyboard_handler.c:202-255 | whatever is typed, printed and cleared, the cursor never gets further than 127 cells above the screen |
| `Echo.FarthestAbove` | student-distrib/keyboard_handler.c:202-232 | it gets that far: a full line, Ctrl-L, backspace 127 times |
| `Echo.StepFits` | student-distrib/keyboard_handler.c:202-255 | every key and every output keeps the line no longer than the way from the cursor to the corner, except clearing the screen in the middle of a line |
| `Echo.CursorStaysExactly` | student-distrib/keyboard_handler.c:214-255 | the cursor stays in columns 0 to 79 and rows 0 to 24, whatever is typed and printed, if and only if the line is not longer than that way |
| `Echo.ClearIsSafeExactly` | student-distrib/keyboard_handler.c:202-206 | clearing the screen is harmless for what follows if and only if no line is being typed |
| `Echo.BackspaceAfterClear` | student-distrib/keyboard_handler.c:202-232 | a character, Ctrl-L, backspace: the cursor is in row -1 |
| `Scheduler.System.InitializeSchedule` | student-distrib/schedule.c:14-22 | the scheduler's start state |
| `Scheduler.System.TakeSlot` | student-distrib/systemcall.c:228-251 | the first free slot taken and put on top of the terminal; with none free the last number is used again |
| `Scheduler.System.ConstructPcbEntries` | student-distrib/systemcall.c:332-353 | the control block of the new process; descriptors 2 to 7 are not written |
| `Scheduler.System.Execute` | student-distrib/systemcall.c:224-295 | the step `Executed`, on all fields |
| `Scheduler.System.ClearFileDescriptors` | student-distrib/systemcall.c:142-146 | descriptors 2 to 7 of the running process closed |
| `Scheduler.System.Halt` | student-distrib/systemcall.c:101-129 | the step `Halted`, and the registers the parent goes on with |
| `Scheduler.System.RunANewShell` | student-distrib/schedule.c:29-34 | a shell for the chosen terminal |
| `Scheduler.System.ScheduleHandler` | student-distrib/schedule.c:42-81 | the step `Ticked`, and the registers of the process resumed |
| `Scheduler.System.Open` | student-distrib/systemcall.c:400-451 | the result and the table entry of the opened file |
| `Scheduler.System.Close` | student-distrib/systemcall.c:462-480 | 0 exactly for open descriptors from 2 on |
| `Chains.StepKeeps` | student-distrib/systemcall.c:101-353 | every tick, execute, halt, open and close keeps the invariant: disjoint chains of parents ending at base shells and made of exactly the slots in use, remembered kernel stacks, clean free slots, page, esp0 and running terminal in agreement, terminals in turn |
| `Chains.FirstTick` | student-distrib/schedule.c:42-81 | the invariant holds after the first tick that follows the initialisation |
| `Chains.EveryRunKeeps` | student-distrib/schedule.c:14-81 | it holds in every run, however ticks and calls are interleaved; after n ticks terminal (n - 1) mod 3 runs |
| `Chains.TicksInTurn` | student-distrib/schedule.c:45-48 | the next tick turns to the next terminal |
| `Chains.AncestorsInRuns` | student-distrib/systemcall.c:101-353 | the process tree without chains: in every state of a run a slot is in use exactly if going from parent to parent from the top of some terminal leads to it, in one way only; every such walk ends at a base shell |
| `Chains.AncestorsEnd` | student-distrib/systemcall.c:338-351 | the ancestors bear their own numbers, and each process remembers the kernel stack top of its parent |
| `Processes.ExecuteThenHalt` | student-distrib/systemcall.c:224-295 | execute followed by the halt of the new process is the identity on the tree, the stack top, the page and all other control blocks |
| `Processes.OriginKeptInRun` | student-distrib/systemcall.c:338-351 | parent and remembered stack top of a live process never change |
| `Processes.ParentGoesOn` | student-distrib/systemcall.c:103-119 | however many ticks and calls lie between, halt restores exactly the kernel stack top, page and registers the parent had at execute |
| `Processes.TickSuspends` | student-distrib/schedule.c:56-60 | a tick puts the interrupted registers away in the control block of the running process |
| `Processes.StaysSuspendedInRun` | student-distrib/schedule.c:56-60 | they stay there while the other terminals run |
| `Processes.ResumesExactly` | student-distrib/schedule.c:66-80 | the tick that comes back resumes exactly these registers, that stack and that page |
| `Processes.ShellsStartOnce` | student-distrib/schedule.c:62-64 | each of the first three ticks starts a shell, no other does |
| `Processes.FilesAfterHalt` | student-distrib/systemcall.c:142-146 | halt clears the flags of descriptors 2 to 7 and changes nothing else in any control block |
| `Processes.NewProcessFiles` | student-distrib/systemcall.c:340-347 | a process started in a free slot has exactly descriptors 0 and 1 open |
| `Processes.StartsWithTwoFiles` | student-distrib/systemcall.c:340-347 | so has every process that a run starts, by execute, by one of the first three ticks, or in place of a base shell that halts |
| `Processes.PidKeptExactly` | student-distrib/schedule.c:42-81 | the global variable pid goes on naming the running process if and only if the step is no tick after the third |
| `Processes.PagesDisjoint` | student-distrib/systemcall.c:255 | the 4 MB pages of two processes do not overlap |
| `Processes.StacksDisjoint` | student-distrib/systemcall.c:295 | nor do their 8 KB kernel stacks |
| `Processes.OwnPageInRuns` | student-distrib/schedule.c:66-80 | in every state of a run user page and kernel stack are those of the running process and of no other |
| `Processes.OpenIsLowest` | student-distrib/systemcall.c:408-415 | open takes the lowest free descriptor and touches nothing else |
| `Processes.OpenExactly` | student-distrib/systemcall.c:408-451 | open succeeds exactly if a descriptor from 2 to 7 is free, the name was found and the type is 0, 1 or 2; the new entry by type |
| `Processes.CloseExactly` | student-distrib/systemcall.c:462-480 | close succeeds exactly for descriptors 2 to 7 in use, and clears that one entry but for its inode |
| `Processes.OpenThenClose` | student-distrib/systemcall.c:462-480 | closing succeeds and frees the descriptor for the next open |
| `Limits.ExecuteCoherentExactly` | student-distrib/systemcall.c:240-251 | after execute page, stack and running terminal agree if and only if the displayed terminal is the running one, or the number of its top process is used again |
| `Limits.ExecuteTreeExactly` | student-distrib/systemcall.c:228-251 | after execute there is a process tree if and only if a slot was free and the displayed terminal is the running one or has no process yet |
| `Limits.BaseHaltCoherentExactly` | student-distrib/systemcall.c:113-115 | page, stack and running terminal after a base shell was replaced: they agree if and only if the displayed terminal is the running one |
| `Limits.EnabledExactly` | student-distrib/systemcall.c:101-251 | in every state of a run each step is enabled except for exactly these reasons: a new process needs a free slot and the running terminal on display, and one of the first three ticks a shell that starts |
| `Limits.StepKeepsExactly` | student-distrib/systemcall.c:101-353 | of all steps that the kernel carries out exactly the enabled ones keep the invariant |
| `Limits.StartedTreeExactly` | student-distrib/systemcall.c:228-251 | a process started when no slot is free, or on a terminal whose top did not start it, leaves no process tree, whatever chains one tries; any other leaves one |
| `Limits.TreeCanBreak` | student-distrib/systemcall.c:224-251 | a run that fills the table without a refusal, after which the next execute breaks the tree |
| `Limits.ShellCoherentExactly` | student-distrib/systemcall.c:224-226 | one of the first three ticks leaves page, stack and terminal in agreement exactly if execute is not refused |
| `Limits.RefusedShell` | student-distrib/schedule.c:62-80 | if it is refused the interrupted process goes on with its own registers, stack and page, while the running terminal is one that has no process |
| `Limits.ShellTreeExactly` | student-distrib/systemcall.c:230-238 | and then a process tree exactly if a slot was free |
| `Limits.ShellCanBeRefused` | student-distrib/systemcall.c:224-226 | five processes on the first terminal before the second tick: the next shell is refused |
| `Keyboard.Buffers.KeybrdInit` | student-distrib/terminal.c:85-96 | empty lines on all terminals |
| `Keyboard.Buffers.TypeChar` | student-distrib/keyboard_handler.c:215-224 | a character appended, unless 127 are there |
| `Keyboard.Buffers.EraseChar` | student-distrib/keyboard_handler.c:226-232 | the last character taken off |
| `Keyboard.Buffers.FinishLine` | student-distrib/keyboard_handler.c:236-245 | newline, if it fits, and terminator |
| `Keyboard.Buffers.MoveLine` | student-distrib/keyboard_handler.c:246-251 | the line copied to the output buffer |
| `Keyboard.Buffers.HandOver` | student-distrib/keyboard_handler.c:236-251 | the output buffer then holds exactly the entered line |
| `Keyboard.Buffers.EnterLine` | student-distrib/keyboard_handler.c:234-255 | the line handed over, an empty one begun, reads released |
| `Keyboard.Buffers.HandleKey` | student-distrib/keyboard_handler.c:214-255 | any key acts on the displayed terminal's line as on a bounded list and leaves the other lines alone: it is the step `Press` of the state machine |
| `Keyboard.Buffers.SwitchTerminal` | student-distrib/keyboard_handler.c:96-109 | no line changes: the step `Switch` |
| `Keyboard.Buffers.CopyColumn` | student-distrib/terminal.c:26-27 | the copy loop |
| `Keyboard.Buffers.TerminalRead` | student-distrib/terminal.c:20-32 | returns the entered line, up to nbytes, and forgets it; with nbytes <= 0 it only takes the flag: the step `Read` |
| `LineEditor.KeysByCode` | student-distrib/keyboard_handler.c:214-234 | what each character and the backspace key mean |
| `LineEditor.TypingAppends` | student-distrib/keyboard_handler.c:215-224 | typing a text appends it, as far as there is room for 127 characters |
| `LineEditor.CharThenBackspace` | student-distrib/keyboard_handler.c:215-232 | a character and backspace undo each other, except on a full line, which loses its last |
| `LineEditor.EnteredText` | student-distrib/keyboard_handler.c:236-245 | the text entered is the line, and ends in a newline exactly if the line was shorter than 127 |
| `LineEditor.TakenByLength` | student-distrib/terminal.c:23-32 | a read returns the first nbytes bytes of it, and the rest is lost |
| `LineEditor.LinesAreIndependent` | student-distrib/keyboard_handler.c:214-255 | on any mix of terminals each line is what its own keys make of it |
| `LineEditor.ReadReturnsLine` | student-distrib/terminal.c:20-32 | after enter, a read with room for it returns exactly the line typed, with newline if shorter than 127, whatever happens on the other terminals in between |
| `LineEditor.ReadableExactly` | student-distrib/terminal.c:21-22 | after enter a read can go ahead exactly as long as no read on any terminal has happened: there is one flag for all |
| `LineEditor.ReadOnOtherTerminalBlocks` | student-distrib/terminal.c:21-22 | an entered line that no read can fetch |
| `Numerals.NumeralParses` | student-distrib/lib.c:387-420 | the numeral of a number parses to it, in every radix from 2 to 36, with the first so many characters of the table only and no leading zero |
| `Numerals.Uint32Digits` | student-distrib/lib.c:387-420 | at most 32 digits, and 8 in radix 16 |
| `Numerals.DigitsByTable` | student-distrib/lib.c:390 | the digits are those of the table |
| `Numerals.SomeNumerals` | student-distrib/lib.c:394-419 | 255 is FF, 10 is 1010 in radix 2, 0 is 0 |
| `Printing.PutByPlace` | student-distrib/lib.c:394-419 | what writing a string means, byte by byte: its characters, a zero byte, all else as it was |
| `Printing.StrRev` | student-distrib/lib.c:429-445 | the string reversed in place, nothing else changed |
| `Printing.WriteDigits` | student-distrib/lib.c:408-416 | digits from the lowest up, and a terminator |
| `Printing.Itoa` | student-distrib/lib.c:387-420 | exactly the numeral and its terminator are written |
| `Printing.FormatSigned` | student-distrib/lib.c:256-267 | `%d`: a minus sign and the numeral of the absolute value |
| `Printing.SignedNumeralParses` | student-distrib/lib.c:259-266 | signed printing is invertible |
| `Printing.SignExactly` | student-distrib/lib.c:259-266 | a minus sign in front exactly for negative numbers, decimal digits behind it |
| `Printing.PadZeros` | student-distrib/lib.c:235-238 | the padding loop |
| `Printing.TakePadded` | student-distrib/lib.c:234-239 | what is printed is the string padded to eight characters |
| `Printing.FormatHex` | student-distrib/lib.c:230-240 | `%#x` prints eight hexadecimal digits that denote the argument |
| `Printing.CountDigits` | syscalls/ece3912048.c:349-353 | the length of the numeral, by division |
| `Printing.WriteBackwards` | syscalls/ece3912048.c:355-358 | the numeral written backwards from its end |
| `Printing.ConvertNumber` | syscalls/ece3912048.c:342-360 | writes the same string as `itoa` in radix 10, with a sign in front of negative numbers |

## Left out

- Devices: interrupt controller, real-time clock, timer, mice, sound, cursor ports. There is register input and output only.
- Boot, descriptor tables, exception stubs, assembly linkage, the inline assembly of the memory routines.
- Paging beyond the question which 4 MB user page is mapped; the video mapping of user programs (`vidmap`).
- Signals: the source has stubs only.
- Command parsing, argument handling (`getargs`), the ELF check and the loading of the image in `execute`: a step starts after they succeeded. A failing check returns before anything has changed.
- The exit status that `halt` hands to the parent, and the data segment registers.
- `print_game`, prompts and messages, among them the one of `rand_new_tile` for a full board, which is printed before the loop that then never ends; the dialogue for the size of the board.
- `remake_game`, which nothing calls, and the copy of the game in `ece3912048.c` apart from `convert_number`.
- Scan codes and modifier keys other than Ctrl with L; Alt-S; the cell that `switch_terminal` repaints for the mouse pointer.
- `dir_read` and lookups by index, and the position of descriptors that belong to directories, devices and terminals.
- User programs other than `cat`, `grep` and the conversion of numbers, and `main` of `grep`, which lists the directory.
- The failure of `close` in `grep` and of `write` in `cat`: neither can fail for the descriptors used.
- Game.Game.Move: on more than 25 cells a score or tile could exceed int32; the model's integers are unbounded there.
- Game.Game.RandNewTile: requires that the table names an empty cell. Otherwise the loop of the source does not end, and a method that is proved to end cannot have that loop; `Rules.Turn` has the outcome `Hung` for the case and `Plays.TurnHangsExactly` says when it arises.
- Game.Game.Push: excludes the moves after which `RandNewTile` would not end, for the same reason.
- Game.Game.ProcessTurn: excludes the turns whose outcome is `Hung`.
- Plays.Start2048: excludes the inputs whose play is `Hung`.
- Plays.TakeTurns: the same.
- Plays.MakeGame: requires that both searches of the allocator end; `Plays.SmallBoardsAreAnswered` shows that they do for every board that the driver makes.
- Heap.Allocator.Malloc: requires a search that ends; `Heap.SearchEndsExactly` says when that is. What lies behind the table is a field of the allocator, which only its methods leave alone.
- FileSystem.ReadData: requires that offset plus length does not wrap around 2^32; a negative count in `file_read` is such a wrap.
- FileSystem.OpenFile.FileRead: takes the descriptor as an object; the source finds it through the global variable `pid`, which ticks do not update (`Processes.PidKeptExactly`), and checks that it is one of 2 to 7.
- Grep.GrepFile: requires a file and a pattern without NUL bytes, and that the byte behind the buffer, which nothing initialises, is no newline.
- Grep.DoOneFile: the same.
- Grep.StrNCmp: the pattern is a sequence rather than a second buffer.
- Printing.ConvertNumber: excludes the smallest int, whose negation overflows.
- Printing.FormatSigned: takes the negation of the smallest int as the unsigned number that the hardware makes of it.
- Chains.StepKeeps: speaks of the steps in `Kernel.Enabled`; of the other steps that the kernel carries out none keeps the invariant (`Limits.StepKeepsExactly`).
- Chains.EveryRunKeeps: speaks of runs of such steps.
- Keyboard.Buffers.TerminalRead: the busy wait before it is a precondition. The buffer has to hold the text returned and a terminator, which is written behind the text even if that makes it one byte more than was asked for.
- Console.Video.Putc: takes a cursor at most two rows above the screen, and so do the routines that call it; `Echo.Run` shows that no other is ever reached.
- Console.Video.Backspace: the same, before and after the step.
- Directory.Dentry.ReadByName: the directory is a sequence of as many entries as the boot block counts.
