# RV-9 in Dafny

A model of the parts of RV-9 where a simple promise is kept by code that is
not simple, with proofs that it is kept.

| files | what they model |
|---|---|
| RamDisk, FlashCache, FlashUse, NorFlash, FlashDisk, FlashRun | A write-back cache over NOR flash that has to behave as the RAM disk does, device failures and all |
| ShellControl, ShellDepth, ShellText, ShellScript, Shell, ShellVars, ShellConditions | The shell: scripts as text, run by a flat loop, a four-frame stack and seeking back; the line reader; variables; && and \|\| |
| TouchQueue, TouchStream, TouchBook, TouchPlace, TouchReading, TouchRing, TouchDriver | Polled fingers as an event stream through a ring that drops moves before presses |
| ClaimRecords, ClaimLaws, ClaimTable | Who owns which device: a linked list of counted claims with exclusivity, reservations and failsafes |
| ConsoleScreen, ConsoleLaws, Console | The LCD console, which repaints only the rows it marked |
| EditorText, LineEditor, EditorKeys, Editor | The editor: one buffer and an offset that mean lines and a cursor, and a window redrawn a row at a time |
| Layout, LayoutLaws, Whisker, WhiskerSink | Laying out a stack of widgets, finding one under a point, repainting only what changed, and counting a document before writing it |
| Calendar, SquareRoot | Dates from day numbers; the integer square root |
| Manifest, ManifestValues, ManifestLaws, ModuleImage, ImageLaws | Writing module images and reading them back, one or a whole store |
| LineStream, Sort | Reading lines in chunks, and sorting them by offsets into an arena |
| LogRing, Gpio | The log ring and its hand-off to the port; pins shared between paths |
| Options, Numerals | A value that may not be there; numbers in decimal |

Objects the code updates in place are classes over the same fields, and each
operation's contract gives its new state as a function of the old one. What
those functions promise is proved beside them, in terms of the bytes, cells,
pixels or uses a reader of the code can point at. Every operation that takes a
lock is one step.

## Where the code does other than it says

Each of these is stated as an exact condition, both ways round.

- The cache gives up the least recently used block only as far as its clock can
  tell: of two blocks used within one millisecond the later may go
  (`FlashUse.LeastRecent`, `FlashUse.TieExample`).
- Re-reserving a claim already reserved as shared, this time exclusively, does
  not look for other owners (`ClaimRecords.ReserveSound`, `ClaimRecords.RunSound`,
  `ClaimRecords.UpgradeEndsUnsound`).
- A widget placed after the last weighted one starts up to a remainder early
  (`Layout.InOrderIff`, `Layout.OverlapExample`).
- A stack that is accepted may be narrower than its padding, and its widgets are
  then less than nothing wide (`Whisker.InsideTheArea`, `Whisker.NarrowExample`).
- A number of more than eight digits is written without its first ones
  (`WhiskerSink.NumberBack`).
- Hiding a visible cursor marks no row (`Console.Driver.SetStat`).
- A tab never ends on a screen under four columns (`ConsoleScreen.TabEnds`).
- A mirrored touch past the glass lands on the opposite edge
  (`TouchPlace.NearestUnlessMirroredOutside`).
- A fifth nested `if` or `while` pushes nothing (`ShellControl.NestingLimit`,
  `ShellDepth.DepthLimit`). When no condition is repeated that always shows; when
  one is, it need not (`ShellDepth.DepthNeedNotShow`).
- A composed document is what was counted only if its body writes the same
  bytes twice; if the second run fails half way, half a document is written
  (`WhiskerSink.ComposeExactIff`, `WhiskerSink.ComposeMiscounts`).
- `exit -1` does not leave the shell (`ShellControl.ExitLeaves`).
- A known tag given as a number has its value written as text, and a text as
  long as the tag's own values is shown as something else
  (`ManifestValues.NumberedShown`).
- A line buffer of one byte loses a last line with no newline
  (`LineStream.LinesKeptIff`).
- A manifest entry given the number 0 ends the walk, and one from 0x8000 up
  comes back under another number (`Manifest.BlocksBack`).
- `sort` refuses a line of exactly 127 characters, though its message says
  longer, and prints a line with a zero byte in it cut short (`Sort.FineIff`,
  `Sort.PrintedIsTheInput`).
- A failed open for writing leaves a pin marked as driven
  (`Gpio.Driver.Open`).

## Model

| member | source | states |
|---|---|---|
| RamDisk.Disk.Read | components/rv9_io/src/drv_ramdisk.c:67-77 | The sectors asked for, or an error and nothing touched when any of them is off the end of the disk |
| RamDisk.Disk.Write | components/rv9_io/src/drv_ramdisk.c:79-89 | The disk becomes itself overwritten at those sectors and nowhere else, or is unchanged when out of range |
| RamDisk.ReadBack | components/rv9_io/src/drv_ramdisk.c:67-89 | Reading what was just written gives back the bytes written |
| RamDisk.OverwriteSteps | components/rv9_io/src/drv_ramdisk.c:79-89 | Writing a run sector by sector is writing it at once; the flash disk relies on it |
| RamDisk.SectorsSteps | components/rv9_io/src/drv_ramdisk.c:67-77 | Reading a run in pieces is reading it at once; the flash disk relies on it |
| FlashCache.Behind | components/rv9_io/src/drv_flashdisk.c:117-152 | Whatever happens to the flash behind a valid dirty slot, the view of the disk does not change |
| FlashCache.PutBack | components/rv9_io/src/drv_flashdisk.c:117-152 | Once the flash equals a slot, marking it clean changes no byte of the view and keeps the cache coherent |
| FlashCache.ForgetClean | components/rv9_io/src/drv_flashdisk.c:164-189 | Dropping a slot that is not dirty changes no byte of the view |
| FlashCache.LoadInvisible | components/rv9_io/src/drv_flashdisk.c:164-189 | Loading a block into a free slot changes no byte of the view |
| FlashCache.StoreIsOverwrite | components/rv9_io/src/drv_flashdisk.c:302-325 | Storing a sector in its slot is the plain disk overwritten at that sector, for every byte of the disk |
| FlashCache.ProgramLegal | components/rv9_io/src/drv_flashdisk.c:117-152 | Programming (old & new) yields the new bytes exactly when every byte only clears bits |
| FlashCache.AllCleanIsFlash | components/rv9_io/src/drv_flashdisk.c:117-152 | With no dirty slot left the flash itself is the view |
| FlashCache.DirtyUpdate | components/rv9_io/src/drv_flashdisk.c:117-152 | How one slot changes the number of dirty slots; the flush accounting rests on it |
| FlashCache.RoomForOneMore | components/rv9_io/src/drv_flashdisk.c:164-189 | If the blocks in use are no more than the slots, a block that is not held finds a free slot |
| FlashCache.NoEviction | components/rv9_io/src/drv_flashdisk.c:164-189 | One slot handed to a block of a working set no larger than the cache: the slot was free or held that block, and everything held stays held |
| FlashCache.HeldSector | components/rv9_io/src/drv_flashdisk.c:261-300 | A sector of a held block is the slot's bytes, as the view has it |
| FlashCache.RunView | components/rv9_io/src/drv_flashdisk.c:261-300 | A run of sectors none of which is held is, in the view, the flash itself |
| FlashCache.AppendPiece | components/rv9_io/src/drv_flashdisk.c:121-134 | Pieces compared one after another decide the whole range |
| NorFlash.Partition.Read | components/rv9_io/src/drv_flashdisk.c:123-125 | A read of the flash gives its bytes or fails |
| NorFlash.Partition.Erase | components/rv9_io/src/drv_flashdisk.c:140-143 | An erase sets a range to ones; one that fails leaves that range arbitrary and the rest alone |
| NorFlash.Partition.Write | components/rv9_io/src/drv_flashdisk.c:146-148 | A program ands the new bytes into the old; one that fails leaves that range arbitrary and the rest alone |
| FlashDisk.ComparePiece | components/rv9_io/src/drv_flashdisk.c:129-133 | Whether a piece only clears bits, and whether it is the same |
| FlashDisk.Driver.CompareBlock | components/rv9_io/src/drv_flashdisk.c:121-134 | Says `clearsOnly` only if every byte of the block satisfies old & new == new, and `same` only if all are equal; with no read failing, exactly if |
| FlashDisk.Driver.CompareNext | components/rv9_io/src/drv_flashdisk.c:122-134 | One piece of that comparison; a read that fails ends it as if a bit had to be set |
| FlashDisk.Driver.WriteBack | components/rv9_io/src/drv_flashdisk.c:140-148 | Erases unless only bits are cleared, then programs; if it succeeds the block equals the data, and erases are counted |
| FlashDisk.Driver.FlushSlot | components/rv9_io/src/drv_flashdisk.c:117-152 | Whether or not the device fails, the view is unchanged; a flush that works leaves the slot clean, counts a flush exactly if the flash did not hold the block already or could not be read, and an erase exactly if some bit had to be set or it could not be read; flushes + dirty slots stay within the sector writes and erases within flushes plus faults |
| FlashDisk.Driver.FindSlot | components/rv9_io/src/drv_flashdisk.c:154-160 | The slot holding a block, exactly when one does |
| FlashDisk.Driver.ChooseVictim | components/rv9_io/src/drv_flashdisk.c:166-172 | The first free slot, or else the one touched longest ago |
| FlashDisk.Driver.LoadSlot | components/rv9_io/src/drv_flashdisk.c:173-184 | A block loaded into a clean slot, and the slot empty after a failure; the view does not change, and losing a block it held counts as an eviction |
| FlashUse.MarkedAgain | components/rv9_io/src/drv_flashdisk.c:186 | A slot marked with the reading taken at its use leaves every held slot marked with the reading taken when its own block was last used |
| FlashUse.SmallestIsOldest | components/rv9_io/src/drv_flashdisk.c:168-173 | With every slot so marked, the full cache's victim holds a block no held block was last used before |
| FlashUse.LeastRecent | components/rv9_io/src/drv_flashdisk.c:162-173 | So the block given up is the one used longest ago, except that two uses at one reading of the clock cannot be told apart |
| FlashUse.TieExample | components/rv9_io/src/drv_flashdisk.c:172 | Two blocks used within one reading: the one used last is given up |
| FlashDisk.Driver.Now | components/rv9_io/src/drv_flashdisk.c:186-197 | The clock is read: never earlier than before |
| FlashDisk.Driver.Stamp | components/rv9_io/src/drv_flashdisk.c:186 | A use: the slot is marked with what the clock reads now, the use is recorded, and every mark is again that of its block's last use |
| FlashDisk.Driver.Bring | components/rv9_io/src/drv_flashdisk.c:168-184 | A block that is not held brought into the slot that is free or was used longest ago, which is written back first; what was held there is given up |
| FlashDisk.Driver.GetSlot | components/rv9_io/src/drv_flashdisk.c:164-189 | A slot holding the block, marked with the reading of the clock taken in this call and that use recorded, or a failure and no use; the view is unchanged either way; a block is evicted exactly when another is loaded over it, and none of those held was last used before it |
| FlashDisk.Driver.FlushIdle | components/rv9_io/src/drv_flashdisk.c:191-209 | One pass of the flusher: a dirty block last used 50 ms or more before this reading of the clock is put back, and one used less long ago is not touched; no byte of the view changes, failures included, and the counters never fall |
| FlashDisk.Driver.MeasureRun | components/rv9_io/src/drv_flashdisk.c:285-289 | How far the sectors can be read straight from flash: no sector of the run is held |
| FlashDisk.Driver.Fetch | components/rv9_io/src/drv_flashdisk.c:275-297 | One step of a read gives the next sectors of the view, from a slot or from flash |
| FlashDisk.Driver.Read | components/rv9_io/src/drv_flashdisk.c:261-300 | Every successful read returns what the plain disk would, sector for sector; nothing else changes |
| FlashDisk.Driver.StoreSector | components/rv9_io/src/drv_flashdisk.c:318-321 | Storing a piece in its slot overwrites the view at that sector and marks the slot dirty |
| FlashDisk.Driver.WriteSector | components/rv9_io/src/drv_flashdisk.c:313-322 | One sector written: the view is overwritten there or, on failure, unchanged; nothing is evicted while the blocks in use fit the cache |
| FlashDisk.Driver.Write | components/rv9_io/src/drv_flashdisk.c:302-325 | The view is overwritten at exactly the sectors stored before any failure, fewer than all if there was one, and the use of each sector's block is recorded; nothing is evicted in a run that fits the cache |
| FlashRun.ServeOne | components/rv9_io/src/drv_flashdisk.c:261-325 | One request answered as the plain disk would, or failed with its effect limited to the sectors stored; the writes grow by exactly those and no counter falls |
| FlashRun.Serve | components/rv9_io/src/drv_flashdisk.c:117-325 | Any run of requests, evictions and idle flushes: every reply and the final view are explained by the plain disk, and with no device failure are the RAM disk's own; whatever block was given up in it, none then held was last used at an earlier reading of the clock; and when the writes keep to as many blocks as there are slots no block is given up at all |
| FlashRun.ServeAll | components/rv9_io/src/drv_flashdisk.c:117-325 | The run, request by request; only a device failure makes a request fail |
| FlashRun.ExplainedIsRam | components/rv9_io/src/drv_ramdisk.c:67-89 | A run in which nothing failed has exactly the replies and the contents of the RAM disk |
| FlashRun.RamServe | components/rv9_io/src/drv_ramdisk.c:67-89 | A run of requests served by the RAM disk itself: its replies and what it holds afterwards |
| FlashRun.Alongside | components/rv9_io/src/drv_flashdisk.c:117-325 | The same requests to a flash disk and a RAM disk with the same contents: as long as the flash does not fail, the same replies and the same contents |
| ShellControl.StepsKeepShape | modules/shell/shell.c:1295-1384 | However many lines are obeyed, every frame above one that is not running is dead |
| ShellControl.UntakenIsSilent | modules/shell/shell.c:1312-1313 | In a branch not taken no command is issued and no condition evaluated |
| ShellControl.StepsGrow | modules/shell/shell.c:1260-1384 | What has been issued is only ever added to |
| ShellControl.ExitLeaves | modules/shell/shell.c:1260-1499 | After any number of turns the shell has left exactly when something it issued was an `exit` with a status of at least 0; that was the last thing it issued, and its status is the shell's |
| ShellControl.SkipBlock | modules/shell/shell.c:1295-1384 | A whole block in a branch not taken leaves the machine as it was, past the block |
| ShellControl.RunBlock | modules/shell/shell.c:1260-1384 | The flat loop over a flattened block reaches what the structured meaning says, for any fuel |
| ShellControl.RunStmt | modules/shell/shell.c:1260-1384 | The same for one statement |
| ShellControl.RunCond | modules/shell/shell.c:1295-1384 | The same for if/else: exactly one branch is taken, and the stack is as it was |
| ShellControl.RunLoop | modules/shell/shell.c:1295-1381 | The same for while: `end` goes back to the loop's own line as often as the condition holds |
| ShellControl.LoopReachesMeaning | modules/shell/shell.c:1260-1384 | For every well-nested script of depth at most 4 the loop reaches every structured behaviour: the same commands and conditions in the same order |
| ShellControl.LoopStaysWithinMeaning | modules/shell/shell.c:1260-1384 | After any number of lines what has been issued is what the structured meaning issues: the loop never strays |
| ShellControl.IfRunsOne | modules/shell/shell.c:1295-1384 | What an `if` means: its condition is asked once, and one of its two blocks is run, once |
| ShellControl.WhileRunsOften | modules/shell/shell.c:1295-1381 | What a `while` means: its condition asked and its block run as often as the condition holds |
| ShellControl.ExitEnds | modules/shell/shell.c:1451-1499 | After a command that leaves, nothing more of the script means anything |
| ShellControl.StaysIfReaches | modules/shell/shell.c:1260-1384 | A loop that gets as far as the meaning of some events has not strayed from it up to there |
| ShellControl.FourLevelsAreFaithful | modules/shell/shell.c:1295-1303 | Any script of depth at most 4 stays within its structured meaning, and gets as far as it goes, for every behaviour |
| ShellControl.NestGuards | modules/shell/shell.c:1260-1384 | In structured meaning, more than four guards, `if` or `while` in any mixture, keep a command from being run when only the first four conditions hold |
| ShellControl.Dive | modules/shell/shell.c:1298-1303 | What the loop does on the way down a nest deeper than its stack: it runs the command all the same |
| ShellControl.NestingLimit | modules/shell/shell.c:1298-1303 | A nest of `if` and `while` in any mixture is faithful exactly when it is at most four deep |
| ShellDepth.Arrive | modules/shell/shell.c:1295-1384 | Both the loop and the meaning get to the first guard that is too deep, when just the conditions on the way there hold |
| ShellDepth.BlindSteps | modules/shell/shell.c:1298-1303 | Past a guard it did not ask, the loop never asks that condition next |
| ShellDepth.DepthLimit | modules/shell/shell.c:1298-1303 | A script of any shape in which no condition is repeated, and no `if` has a second `else`, is faithful exactly when it is at most four deep |
| ShellDepth.DepthNeedNotShow | modules/shell/shell.c:1298-1303 | With conditions repeated that is not so: a script five deep that the loop obeys faithfully, for every behaviour |
| ShellText.NewlineAloneMeansNothing | modules/shell/shell.c:282-285 | The newline of a CRLF left for later starts an empty line that means nothing |
| ShellText.EndingsDoNotMatter | modules/shell/shell.c:273-316 | Lines ended by newline, return or CRLF in any mixture, and a last line with none, are read as the same lines |
| ShellText.FullLine | modules/shell/shell.c:295-313 | A line as long as the buffer, 255 characters, is taken as it is, and what follows starts another |
| ShellScript.ScriptRead | modules/shell/shell.c:273-1384 | A script written out as text, with any indentation, blank lines, comments and endings, is read as the lines it was written from: `if`, `while`, `else`, `end` and commands |
| ShellScript.Plainly | modules/shell/shell.c:1295-1384 | Every script whose lines can be typed at all has such a text |
| Shell.LineTaken | modules/shell/shell.c:276-290 | Past an ending, or past both halves of a CRLF, the same lines remain |
| Shell.Session.ReadFile | modules/shell/shell.c:303-314 | One read, of any size the file chooses: what is pending is unchanged and the buffer stays the bytes just before the count |
| Shell.Session.FindEnding | modules/shell/shell.c:276-278 | Where the first ending in the buffer is, if there is one |
| Shell.Session.TakeLine | modules/shell/shell.c:279-289 | The line before the ending, with the buffer moved down past it |
| Shell.Session.TakeAll | modules/shell/shell.c:295-313 | A line with no ending is taken whole when the buffer is full or the file is done |
| Shell.Session.ReadLine | modules/shell/shell.c:273-316 | The next line of the script whatever the read sizes, or -1 exactly at its end; the buffer is always the bytes up to the counted offset |
| Shell.Session.CtlRunning | modules/shell/shell.c:319-325 | True exactly when every frame is running |
| Shell.Session.OpenFrame | modules/shell/shell.c:1295-1344 | `if` and `while` push the frame the control machine pushes, with the offset of their own line |
| Shell.Session.Otherwise | modules/shell/shell.c:1346-1355 | `else` turns the innermost `if` as the control machine does |
| Shell.Session.CloseFrame | modules/shell/shell.c:1357-1381 | `end` pops the frame and, for a running `while`, goes back to the recorded line |
| Shell.Session.SeekTo | modules/shell/shell.c:1372-1379 | After the seek the next line read is the one the offset recorded |
| Shell.Session.Fetch | modules/shell/shell.c:1265-1277 | The recorded offset is where the line just read starts, and the next line starts after it |
| Shell.Session.Turn | modules/shell/shell.c:1260-1384 | One turn of the main loop is one step of the control machine or, for a line that means nothing, a move further down the script; it is the last exactly at the end |
| Shell.Session.RunTurns | modules/shell/shell.c:1260-1384 | So many turns are some number of steps and, unless the shell has left or its script has ended, at least one for every length of the script and one more |
| Shell.Session.RunSteps | modules/shell/shell.c:1260-1384 | Every number of steps is reached, within that many turns, and with it every point of the structured meaning |
| Shell.Session.RunScript | modules/shell/shell.c:1260-1384 | On a script that reads as a structured one of depth at most 4, everything issued is what that script means and, given turns enough, all that it means has been issued |
| ShellScript.RunText | modules/shell/shell.c:1260-1384 | A structured script of depth at most 4, however it is written out, run by a session opened on that text: what is issued is what the script means and, with turns enough, all it means is issued |
| ShellScript.TurnsEnough | modules/shell/shell.c:1260-1384 | A number of turns that is enough for any given number of the script's events |
| Shell.GetsThere | modules/shell/shell.c:1260-1384 | Past the step at which some events have been issued, or over before it, the meaning of that many events has been reached |
| Shell.ScriptsMeanWhatTheySay | modules/shell/shell.c:1260-1384 | The same of the control machine, from the start of any such script |
| ShellVars.Table.Find | modules/shell/shell.c:144-154 | The slot of a name exactly when the table holds it |
| ShellVars.Table.Set | modules/shell/shell.c:158-178 | The table gains the name and the value cut to 31 characters; it refuses, unchanged, exactly a name that is empty or too long, or a new one when all eight slots are taken |
| ShellVars.Stored | modules/shell/shell.c:162-176 | Writing a slot is updating the map and nothing else |
| ShellVars.Table.Piece | modules/shell/shell.c:199-250 | The next piece of a line: an escaped character, a plain one, a lone dollar or a value |
| ShellVars.Table.Expand | modules/shell/shell.c:195-254 | The whole expansion, or a refusal exactly when it would not fit |
| ShellVars.EscapedComesBack | modules/shell/shell.c:201-222 | Any text written with backslashes before `$` and `\` comes out unchanged, whatever the variables |
| ShellVars.NameIsReplaced | modules/shell/shell.c:230-250 | A dollar and a name, of letters, digits and `_`, are replaced by the value, or by nothing if there is none |
| ShellVars.LoneDollar | modules/shell/shell.c:236-240 | A dollar that no name follows is a dollar |
| ShellVars.Backslashes | modules/shell/shell.c:215-220 | A backslash before a dollar or a backslash is taken off, and before anything else is kept |
| ShellVars.PlainStays | modules/shell/shell.c:222-226 | Any other character is itself |
| ShellConditions.SplitInPlace | modules/shell/shell.c:558-588 | Cut up in place, each segment stands zero-terminated with its operator; at six segments the rest is left whole |
| ShellConditions.Close | modules/shell/shell.c:572-584 | One segment ended at its operator, blanks trimmed on both sides |
| ShellConditions.JoinedComesApart | modules/shell/shell.c:558-588 | Up to six clean commands joined by && and &#124;&#124; come apart into the same commands and operators |
| ShellConditions.AndSplits | modules/shell/shell.c:566-584 | Two ampersands, with any blanks around them, end a command, and the next is for when it succeeds |
| ShellConditions.OrSplits | modules/shell/shell.c:566-584 | Two bars likewise, and the next is for when it does not |
| ShellConditions.NoMoreThanSix | modules/shell/shell.c:569 | With six commands begun, the rest of the line is the sixth, operators and all |
| ShellConditions.LastCommand | modules/shell/shell.c:558-588 | A command with no operator in it, single bars and ampersands included, is itself |
| ShellConditions.RunLine | modules/shell/shell.c:1451-1504 | Skipping segments by the running answer means the line read left to right with no precedence |
| ShellConditions.FirstRuns | modules/shell/shell.c:1451-1459 | The first command of a line is run whatever happens, and how it went is the answer |
| ShellConditions.NextRunsIf | modules/shell/shell.c:1454-1459 | One after it is run exactly when the shell has not been left and, after `&&`, what went before succeeded or, after `&#124;&#124;`, did not |
| TouchQueue.OnlyMovesGoFirst | components/rv9_io/src/drv_touch.c:187-220 | A press or release is discarded only when every queued event is one, and then it is the oldest |
| TouchQueue.Policy | components/rv9_io/src/drv_touch.c:173-220 | Nothing goes before the queue is full; then a move that arrives goes, and for a press or release the oldest move or, failing that, the oldest event; what arrives goes to the end |
| TouchQueue.Conserved | components/rv9_io/src/drv_touch.c:187-220 | What was queued and what arrived is what is queued and what was counted lost |
| TouchQueue.AllConserved | components/rv9_io/src/drv_touch.c:187-220 | So for any number of events: what is queued and what was given up are what was queued and what arrived |
| TouchQueue.AtMostOneMissing | components/rv9_io/src/drv_touch.c:187-220 | Order is kept: the queue is what it was and the arrival, less at most one event |
| TouchQueue.EdgesWithoutMove | components/rv9_io/src/drv_touch.c:173-185 | Giving up a move leaves the presses and releases and their order |
| TouchQueue.ShapeWithoutMove | components/rv9_io/src/drv_touch.c:173-185 | Giving up a move leaves every finger's stream a prefix of (DOWN MOVE* UP)* |
| TouchStream.PutKeepsShape | components/rv9_io/src/drv_touch.c:187-220 | Queueing keeps that shape when no press or release is dropped |
| TouchStream.PutKeepsEdges | components/rv9_io/src/drv_touch.c:187-220 | Queueing keeps every press and release when none is dropped |
| TouchStream.PutConserves | components/rv9_io/src/drv_touch.c:187-220 | Read, queued and dropped events together are those emitted |
| TouchBook.SendSound | components/rv9_io/src/drv_touch.c:224-242 | Emitting an event keeps the book sound: shapes, last positions, panel bounds |
| TouchBook.RestSound | components/rv9_io/src/drv_touch.c:338-352 | A finger that stays put emits nothing and keeps the book sound |
| TouchBook.HandOverSound | components/rv9_io/src/drv_touch.c:562-598 | Handing events to the reader keeps the book sound |
| TouchBook.OpenSound | components/rv9_io/src/drv_touch.c:540-552 | Opening empties the queue and starts the accounting again |
| TouchBook.ReaderSees | components/rv9_io/src/drv_touch.c:562-598 | The reader's stream has the finger shape when no finger was down at open and no press or release was dropped |
| TouchPlace.NearestUnlessMirroredOutside | components/rv9_io/src/drv_touch.c:244-277 | A raw point clamps to the nearest place on the panel except exactly when a mirrored axis is past the glass, where 16-bit wrap puts it on the opposite edge |
| TouchPlace.PlaceIsSeat | components/rv9_io/src/drv_touch.c:244-277 | A raw value is placed where no other place of the panel is nearer to it, or as far from the other edge on a mirrored axis, or at the far edge past the glass of one |
| TouchReading.ReadingIsFelt | components/rv9_io/src/drv_touch.c:318-330 | For every track id under 5 the last point with that id is a finger down with its pressure, at the seat of its swapped raw value on each axis; an id no point has is a finger up |
| TouchReading.ChangesTold | components/rv9_io/src/drv_touch.c:332-353 | What is sent of two readings: one event for each finger that went down, lifted or moved, lowest id first and no other, with the place and pressure it now has or, lifting, the place it had |
| TouchDriver.Driver.QUsed | components/rv9_io/src/drv_touch.c:168-171 | How many events the ring holds |
| TouchDriver.Driver.FindVictim | components/rv9_io/src/drv_touch.c:173-185 | The oldest move, or the oldest event if there is none |
| TouchDriver.Driver.CloseGap | components/rv9_io/src/drv_touch.c:196-212 | The ring without one event, the rest in order |
| TouchDriver.Driver.MakeRoom | components/rv9_io/src/drv_touch.c:190-212 | A full ring gives up what the drop policy says |
| TouchDriver.Driver.Append | components/rv9_io/src/drv_touch.c:213-220 | One event at the end of the ring |
| TouchDriver.Driver.QPut | components/rv9_io/src/drv_touch.c:187-220 | The ring as a sequence is exactly the policy: append, or when full drop an arriving move or the victim; drops are counted |
| TouchDriver.Driver.Emit | components/rv9_io/src/drv_touch.c:224-242 | An event for a finger is queued, what it costs counted, and remembered |
| TouchDriver.Driver.Place | components/rv9_io/src/drv_touch.c:244-277 | A reading mapped to the panel, both axes in range |
| TouchDriver.Driver.Gather | components/rv9_io/src/drv_touch.c:318-330 | The fingers one report says are down and where: each as hard as, and seated where, the last point with its track id says |
| TouchDriver.Driver.Settle | components/rv9_io/src/drv_touch.c:332-353 | One finger against its last reading: DOWN, MOVE only if it moved, UP at the last position, or nothing; the queue, the count of drops and the book are what sending just that makes of them |
| TouchDriver.Driver.Poll | components/rv9_io/src/drv_touch.c:279-354 | One poll sends exactly one event for each finger that changed, in order of id, and remembers each finger where the last point with its id is; the queue, the drops and the account of every event are what putting those, one after another, makes of them |
| TouchDriver.Driver.Open | components/rv9_io/src/drv_touch.c:540-552 | Open drops what was queued and starts counting again |
| TouchDriver.Driver.Take | components/rv9_io/src/drv_touch.c:575-584 | The oldest events are handed over in order |
| TouchDriver.Driver.Read | components/rv9_io/src/drv_touch.c:562-598 | A read hands over as many queued events as fit, oldest first, and leaves the rest |
| ClaimRecords.TakeSound | components/rv9_io/src/claim.c:116-150 | Taking keeps one record per owner and resource, the counts, and exclusivity |
| ClaimRecords.DropSound | components/rv9_io/src/claim.c:177-196 | Dropping a path keeps them |
| ClaimRecords.ParkSound | components/rv9_io/src/claim.c:272-291 | Parking a failsafe keeps them |
| ClaimRecords.ReserveSound | components/rv9_io/src/claim.c:206-235 | Reserving keeps them exactly when it does not turn a reserved shared claim that others also hold into an exclusive one |
| ClaimRecords.ReserveTidy | components/rv9_io/src/claim.c:206-235 | Even then there is one counted record per owner and resource |
| ClaimRecords.ReleaseTouchesNobodyElse | components/rv9_io/src/claim.c:245-262 | Releasing one owner leaves every record of the others untouched and in order |
| ClaimRecords.ReleaseKeeps | components/rv9_io/src/claim.c:245-262 | Every record left is an old one, without the released owner's reservation |
| ClaimRecords.ReleaseLeaves | components/rv9_io/src/claim.c:245-262 | Exactly the records of others and those of the owner with a path open are left, in order, the owner's without their reservation |
| ClaimRecords.ReleaseSound | components/rv9_io/src/claim.c:245-262 | Releasing keeps the table sound, and the owner has no reservation left |
| ClaimRecords.ReleaseTidy | components/rv9_io/src/claim.c:245-262 | Releasing keeps one counted record per owner and resource, in any table |
| ClaimRecords.StepSound | components/rv9_io/src/claim.c:116-291 | Every operation keeps the table sound, exactly under that condition |
| ClaimRecords.RunSound | components/rv9_io/src/claim.c:116-291 | An exclusive owner is alone all through a run exactly when no step of it upgrades over others |
| ClaimRecords.RunTidy | components/rv9_io/src/claim.c:116-291 | Every run at all keeps one record per owner and resource, counting its paths and its reservation |
| ClaimRecords.UpgradeEndsUnsound | components/rv9_io/src/claim.c:214-221 | Two shared reservations and one of them repeated exclusively: an exclusive claim beside another |
| ClaimLaws.OpenIs | components/rv9_io/src/claim.c:116-175 | An open is refused, changing nothing, exactly when someone else has the resource and one of the two wants it alone; otherwise it is one more path on the owner's record, exclusive if it was or asks to be, or on a new one in front |
| ClaimLaws.CloseIs | components/rv9_io/src/claim.c:177-196 | A close is one path and one reference less on that record, which goes with its last |
| ClaimLaws.ReserveIs | components/rv9_io/src/claim.c:206-235 | A reservation made already can only be made exclusive, and nobody is asked; otherwise it is refused as an open is, or one more reference |
| ClaimLaws.ParkIs | components/rv9_io/src/claim.c:272-291 | Parking changes nothing but the failsafe of the owner's own record |
| ClaimLaws.OpenThenClose | components/rv9_io/src/claim.c:116-196 | A path opened and closed leaves the table as it was, but that having asked for the resource alone stays on a record there was |
| ClaimLaws.ShutsOut | components/rv9_io/src/claim.c:109-130 | Opened alone, a resource is refused to everybody else, however they ask |
| ClaimLaws.StaysAlone | components/rv9_io/src/claim.c:116-291 | Who holds a resource alone and neither closes it nor exits is its only owner after any run of anybody's steps that upgrades over nobody |
| ClaimTable.Table.Look | components/rv9_io/src/claim.c:120-132 | Whether anyone is in the way, and the owner's own record |
| ClaimTable.Table.TakeLocked | components/rv9_io/src/claim.c:116-150 | BUSY exactly when somebody is in the way, and it changes nothing; otherwise the list becomes the taken list, or memory has run out for an owner with no record yet |
| ClaimTable.Table.Take | components/rv9_io/src/claim.c:152-175 | The same behind the lock, for a path, in any table; one that was sound stays so |
| ClaimTable.Table.DropLocked | components/rv9_io/src/claim.c:177-187 | The record loses one reference and goes when it was the last |
| ClaimTable.Table.Drop | components/rv9_io/src/claim.c:189-196 | A path dropped: the list becomes the dropped list |
| ClaimTable.Table.Reserve | components/rv9_io/src/claim.c:206-235 | A reservation made, made exclusive or refused as the record model says; memory can run out only for an owner with no record yet |
| ClaimTable.Table.ReleasePid | components/rv9_io/src/claim.c:245-262 | The walk that unlinks as it goes leaves the released list |
| ClaimTable.Table.SetFailsafe | components/rv9_io/src/claim.c:272-291 | A failsafe is parked on the owner's own record, or refused |
| ClaimTable.Table.Failsafes | components/rv9_io/src/claim.c:300-319 | The owner's failsafes, in list order, as many as fit |
| ClaimTable.PromisedIs | components/rv9_io/src/claim.c:300-319 | Every promise is the owner's own parked record, none is missed, and they are in the order of the list |
| ClaimTable.Table.OwnerOf | components/rv9_io/src/claim.c:348-366 | An owner of the resource exactly when there is one: the first exclusive one if any is, who in a sound table is the only one, and otherwise the last in the list |
| ConsoleScreen.CursorIsVisible | components/rv9_io/src/drv_lcdcon.c:277-279 | A visible cursor changes its row's image, whatever is under it |
| ConsoleScreen.MarkedIsEnough | components/rv9_io/src/drv_lcdcon.c:511-532 | A row not marked looks as it did, exactly unless a visible cursor was hidden on it |
| ConsoleScreen.TabEnds | components/rv9_io/src/drv_lcdcon.c:382-384 | A tab ends exactly on screens at least four columns wide |
| ConsoleLaws.PutIsWritten | components/rv9_io/src/drv_lcdcon.c:367-406 | Cell by cell and to the column, what a newline, a return, a tab, a backspace, a printable character and anything else do, wrapping and scrolling included |
| ConsoleLaws.TextIsWritten | components/rv9_io/src/drv_lcdcon.c:523 | A text is its characters written one after another |
| ConsoleLaws.WrittenIsAll | components/rv9_io/src/drv_lcdcon.c:373-406 | That says everything: a screen and a character have one outcome |
| ConsoleLaws.ClearIsCleared | components/rv9_io/src/drv_lcdcon.c:552-569 | The cells clearing takes, in the current pen, and where it leaves the cursor |
| ConsoleLaws.SetIsChanged | components/rv9_io/src/drv_lcdcon.c:597-632 | What each setting may change; everything else stays |
| ConsoleLaws.CursorGoes | components/rv9_io/src/drv_lcdcon.c:598-606 | The upper half of a cursor setting is the row and the lower the column, each kept on the screen |
| ConsoleLaws.PenTakes | components/rv9_io/src/drv_lcdcon.c:608-611 | The lowest byte of a colour setting is the ink, the next the paper |
| ConsoleLaws.AttrTakes | components/rv9_io/src/drv_lcdcon.c:613-615 | The three lowest bits are bold, underline and reverse |
| ConsoleLaws.ImageIsSeen | components/rv9_io/src/drv_lcdcon.c:273-284 | A cell shows its character, or a space if the font has none, reversed once more under a visible cursor |
| Console.Driver.BlankCells | components/rv9_io/src/drv_lcdcon.c:348-355 | Part of a row blanked in the current pen, and the row marked |
| Console.Driver.Scroll | components/rv9_io/src/drv_lcdcon.c:357-365 | Every row moved up, the last blank, all marked |
| Console.Driver.StartLine | components/rv9_io/src/drv_lcdcon.c:367-371 | To the next line, scrolling at the bottom; the cursor stays on the screen |
| Console.Driver.Stamp | components/rv9_io/src/drv_lcdcon.c:399-405 | One printable character, wrapping first when the row is full |
| Console.Driver.ExpandTab | components/rv9_io/src/drv_lcdcon.c:382-384 | Spaces to the next tab stop |
| Console.Driver.PutChar | components/rv9_io/src/drv_lcdcon.c:373-406 | One character changes the screen as its meaning says, and every row whose cells change is marked |
| Console.Driver.Flush | components/rv9_io/src/drv_lcdcon.c:329-343 | Exactly the marked rows, or all of them after another has drawn on the panel, come to show what they should |
| Console.Driver.Write | components/rv9_io/src/drv_lcdcon.c:511-532 | After a write the screen is what writing the characters means, and no row looks wrong that was right or was touched |
| Console.Driver.Clear | components/rv9_io/src/drv_lcdcon.c:552-569 | To the end of the line, of the screen, or all of it |
| Console.Driver.SetStat | components/rv9_io/src/drv_lcdcon.c:580-642 | Likewise after a setting; the one row that newly looks wrong is the cursor's, exactly when a visible cursor is hidden; an unknown code changes nothing |
| Calendar.DaysFollowTheCalendar | modules/date/date.c:28-43 | For every day number the date is a proper one, the next number is the next day under the leap rule, and 0 is 1970-01-01 |
| Calendar.DateFound | modules/date/date.c:28-43 | Counting the days before the date gives back the day number |
| Calendar.DateRecovered | modules/date/date.c:28-43 | Every proper date is what its own day number converts to |
| Calendar.TomorrowIsNext | modules/date/date.c:28-43 | By the calendar's own rules tomorrow has the next day number |
| Calendar.YearRecovered | modules/date/date.c:33 | The quotient that finds the year of an era is right for every day of it |
| Calendar.MonthSpan | modules/date/date.c:36-37 | The month found is exactly the one whose days hold the day of the year |
| Calendar.WidthsSuffice | modules/date/date.c:28-43 | No 32-bit step overflows for any day number the first addition does not |
| EditorText.PlaceIs | modules/ed/ed.c:73-97 | A place in the bytes is where its line begins plus its column |
| EditorText.PlaceUnique | modules/ed/ed.c:73-97 | A line and a column name one place |
| EditorText.ByteAt | modules/ed/ed.c:73-83 | A newline stands exactly where a line ends |
| EditorText.LineBytes | modules/ed/ed.c:219-236 | A line is the run of bytes from its first offset |
| EditorText.InsertInLine | modules/ed/ed.c:125-132 | Bytes put in a line leave the other lines alone |
| EditorText.InsertBreak | modules/ed/ed.c:125-132 | A newline breaks its line in two |
| EditorText.DeleteInLine | modules/ed/ed.c:119-123 | Bytes taken from a line leave the other lines alone |
| EditorText.DeleteBreak | modules/ed/ed.c:119-123 | Taking a newline joins two lines |
| LineEditor.OtherLinesStay | modules/ed/ed.c:334-460 | After a key that does not ask for a full redraw only the cursor's own line can differ |
| LineEditor.OneRowIsEnough | modules/ed/ed.c:504-527 | So one row redrawn makes the window right |
| EditorKeys.KeyOnBytes | modules/ed/ed.c:334-460 | Every key, on lines and a cursor, is what it is to do to the bytes and the offset, told by offsets and newlines alone |
| EditorKeys.Pressed | modules/ed/ed.c:334-460 | A text and a place that come of a key are those the key means |
| EditorKeys.NearestThere | modules/ed/ed.c:352-391 | On the line reached no place is nearer the column aimed for |
| EditorKeys.LinesUnique | modules/ed/ed.c:73-102 | No two texts have the same lines |
| EditorKeys.WindowShows | modules/ed/ed.c:219-295 | A window whose rows are right shows every byte it has room for at its own row and column, and nothing else |
| Editor.Session.LineStart | modules/ed/ed.c:73-77 | The first offset of the line |
| Editor.Session.LineEnd | modules/ed/ed.c:79-83 | The offset where the line ends |
| Editor.Session.LineOf | modules/ed/ed.c:85-90 | The number of the line |
| Editor.Session.TotalLines | modules/ed/ed.c:99-102 | The number of lines |
| Editor.Session.OffsetOfLine | modules/ed/ed.c:92-97 | The first offset of a line, or the end of the text; of the line of a place it is that line's start |
| Editor.Session.MakeRoom | modules/ed/ed.c:113-117 | A gap opened in place, both sides kept |
| Editor.Session.CloseUp | modules/ed/ed.c:119-123 | Bytes closed over in place, both sides kept |
| Editor.Session.Insert | modules/ed/ed.c:125-132 | Bytes put in at the cursor, or nothing changed when the buffer is full |
| Editor.Session.MoveLeft | modules/ed/ed.c:342-345 | One place left, over a line break if there is one |
| Editor.Session.MoveRight | modules/ed/ed.c:347-350 | One place right |
| Editor.Session.MoveUp | modules/ed/ed.c:352-364 | Up a line, to the place on it than which none is nearer the column aimed for |
| Editor.Session.MoveDown | modules/ed/ed.c:352-364 | Down a line, to the place on it than which none is nearer the column aimed for |
| Editor.Session.MoveHome | modules/ed/ed.c:366-369 | To column nought |
| Editor.Session.MoveEnd | modules/ed/ed.c:371-374 | To the end of the line |
| Editor.Session.Page | modules/ed/ed.c:376-391 | A page up or down, clamped to the text, likewise |
| Editor.Session.DeleteForward | modules/ed/ed.c:393-400 | The byte after the cursor taken, or the next line joined on |
| Editor.Session.DeleteBackward | modules/ed/ed.c:402-412 | The byte before it taken, or this line joined to the one above |
| Editor.Session.BreakLine | modules/ed/ed.c:414-418 | A line broken in two, if there is room |
| Editor.Session.TypeText | modules/ed/ed.c:420-423 | Bytes typed into the line, if there is room |
| Editor.Session.CutLine | modules/ed/ed.c:441-450 | The rest of the line cut, or the next line joined on |
| Editor.Session.Handle | modules/ed/ed.c:334-460 | Every key does to the buffer and the offset what it means on lines and a cursor, and asks for a full redraw exactly when more than the cursor's line can change |
| Editor.Session.ScrollToFit | modules/ed/ed.c:267-281 | The view moves the least that brings the cursor into it |
| Editor.Session.DrawRow | modules/ed/ed.c:219-236 | A row shows the part of its line the window has room for |
| Editor.Session.DrawAll | modules/ed/ed.c:290-295 | Every row shows its line |
| Editor.Session.Redraw | modules/ed/ed.c:518-526 | One or two rows redrawn leave every row as drawing all would |
| Editor.Session.Turn | modules/ed/ed.c:496-527 | After every key, resizes included: the bytes, the offset, the column aimed for and the unsaved mark are what the key means, told by offsets and newlines alone; the cursor is in the window; the window shows exactly the bytes of its lines, each at its own place; leaving with changes unsaved takes two presses |
| Editor.Session.Run | modules/ed/ed.c:496-527 | A whole session does to the text what its keys mean, one after another |
| Editor.Session.constructor | modules/ed/ed.c:301-313 | A file opened as far as it fits, and shown |
| Layout.Contained | modules/whisker.h:557-611 | In a stack that fits, every widget is inside the padded area, whatever the justify and weights |
| Layout.Neighbours | modules/whisker.h:574-592 | How far each widget starts after the one before: the gap, less the rounding remainder after the last weighted one |
| Layout.InOrderIff | modules/whisker.h:574-592 | Widgets are in order exactly when none follows the last weighted one or the remainder is no more than a gap |
| Layout.EnoughGap | modules/whisker.h:574-592 | They are whenever the weighted widgets less one are no more than the gap |
| Layout.OverlapExample | modules/whisker.h:574-592 | A stack that fits and whose last widget starts two pixels inside the one before |
| Layout.Remainder | modules/whisker.h:574-592 | What the shares leave over is less than a pixel for each weighted widget |
| Layout.StackEnds | modules/whisker.h:557-611 | Where the stack ends: at the padding when the last widget is weighted, or the justify says so |
| Layout.LeadGrows | modules/whisker.h:545-555 | The justify never pushes a widget less than the one before nor further than there is room |
| LayoutLaws.Packed | modules/whisker.h:545-592 | Without weights, packed to the start, the end or the middle: a gap between any two, all the space after, all before, or the same on both sides to within a pixel |
| LayoutLaws.Spread | modules/whisker.h:551 | From edge to edge: nothing before or after, and an even part of the space between any two, to within a pixel |
| LayoutLaws.Surrounded | modules/whisker.h:552 | All round: half a part before the first and after the last, to within a pixel |
| LayoutLaws.SurroundedBetween | modules/whisker.h:552 | And a whole part and the gap between any two, to within a pixel |
| LayoutLaws.Even | modules/whisker.h:534-538 | The spaces between widgets differ by no more than a pixel |
| LayoutLaws.WeightedLengths | modules/whisker.h:574-592 | Each weighted widget grows by its part of the space, to within a pixel, and the others not at all |
| LayoutLaws.CentredAcross | modules/whisker.h:594-608 | Across its axis a widget is as wide as the area less its padding, or as it may be, and in the middle to within a pixel |
| LayoutLaws.NaturalFits | modules/whisker.h:516-526 | A widget nobody sized: its text and padding in a row; in a column 64 rows for a button, otherwise the least whole bands that hold the font and the gap |
| Whisker.RectOf | modules/whisker.h:557-611 | The loops compute the rectangle the arithmetic describes |
| Whisker.InsideTheArea | modules/whisker.h:593-609 | Every rectangle is inside the area less its padding along the axis, and across it exactly when the area is as wide as the padding on both sides; in a narrower one its width is negative |
| Whisker.NarrowExample | modules/whisker.h:375-421 | A stack that is accepted, whose widget is four pixels less than nothing wide |
| Whisker.Disjoint | modules/whisker.h:650-658 | No point is in two rectangles of a stack in order |
| Whisker.Hit | modules/whisker.h:650-658 | The first widget under a point, the only one when in order, or none exactly when there is none |
| Whisker.Check | modules/whisker.h:375-421 | Accepts exactly a stack of drawable labels that fits; otherwise names the first label that cannot be drawn or, if all can, the first widget past the end |
| Whisker.Rows | modules/whisker.h:689-712 | The least range of whole bands covering the named widgets within the device; an unknown name or nothing to repaint is refused |
| Whisker.DrawnIs | modules/whisker.h:1020 | A document draws exactly the widgets with a row on it, in the order they were declared |
| Whisker.LeavingOutIsInvisible | modules/whisker.h:1020 | Leaving out widgets not on those rows changes nothing on them |
| Whisker.RepaintIsEnough | modules/whisker.h:1097-1103 | If nothing moved and only the named widgets changed, repainting their rows over the old picture gives the new picture at every point |
| Whisker.LooksDoNotMove | modules/whisker.h:516-611 | In a column, texts and looks never move anything |
| WhiskerSink.Sink.Put | modules/whisker.h:268-272 | What is put is counted, and kept if the sink is live |
| WhiskerSink.Sink.PutNumber | modules/whisker.h:281-288 | A number in decimal, its last eight digits if it has more |
| Numerals.DecimalBack | modules/whisker.h:281-288 | A number is read back as it was written, with no needless zero in front |
| WhiskerSink.Digits | modules/whisker.h:283-286 | The digits come out least first, eight of them at most |
| WhiskerSink.NumberBack | modules/whisker.h:281-288 | What is written reads back as the number, exactly if it is under 100000000, and otherwise as its remainder |
| Numerals.LastDigits | modules/whisker.h:283-286 | The last digits of a number spell its remainder by that power of ten |
| WhiskerSink.Sink.PutColour | modules/whisker.h:306-326 | A colour in three hexadecimal digits when every channel is one digit doubled, otherwise in six |
| WhiskerSink.ColourBack | modules/whisker.h:306-326 | A colour is read back as it was written, and is written short whenever a short spelling would do |
| WhiskerSink.PutPart | modules/whisker.h:1000-1038 | A stack for another device, with a label that cannot be drawn or too big for its area adds nothing; otherwise exactly the widgets on the document's rows are added, in order |
| WhiskerSink.PutDoc | modules/whisker.h:1045-1056 | One stack's document: opened, its part, shut |
| WhiskerSink.DocumentIs | modules/whisker.h:1045-1056 | A document is opened, its drawn widgets spelled, and shut; it has its own stack's font and ink, so nothing is nested in it |
| WhiskerSink.SpelledInOrder | modules/whisker.h:1017-1034 | Widgets are spelled one after another, each by itself |
| WhiskerSink.PartIs | modules/whisker.h:1008-1036 | In another's document a stack is nested exactly when its font or its ink differs |
| WhiskerSink.Emit | modules/whisker.h:1067-1082 | Refused, with the sink untouched, exactly when the stack is or when its count is over a positive budget; otherwise exactly the counted bytes are written and their number returned |
| WhiskerSink.Render | modules/whisker.h:1085-1088 | The whole screen, likewise, within the budget |
| WhiskerSink.RenderClipped | modules/whisker.h:1097-1103 | Likewise the rows the named widgets need; an unknown name leaves the sink untouched |
| WhiskerSink.Compose | modules/whisker.h:1145-1161 | What is returned and what is written, from what a body does on its two runs; if the second run repeats the first, the counted bytes within the budget or nothing |
| WhiskerSink.ComposeExactIff | modules/whisker.h:1145-1161 | The bytes counted, or none, are written exactly when the first run is refused, for itself or for its length, or the second run writes the same bytes or fails before its first |
| WhiskerSink.ComposeMiscounts | modules/whisker.h:1116-1121 | A body that writes more the second time: two bytes written where one was counted, against a budget of one |
| WhiskerSink.PutStacks | modules/whisker.h:1126-1135 | The body for several stacks: their parts up to the first that is refused, whose error is returned |
| WhiskerSink.FirstRefused | modules/whisker.h:1126-1135 | The first stack refused says why: -5 for another device before -1 for a label and -7 for its size |
| WhiskerSink.StacksExact | modules/whisker.h:1105-1161 | That body always repeats itself: several stacks are written whole, within the budget, exactly when none is refused and they fit; otherwise nothing is |
| SquareRoot.ISqrt | modules/wslop/wslop.c:74-85 | For every 32-bit number the loop ends with r*r <= v < (r+1)*(r+1), and no sum needs a 33rd bit |
| SquareRoot.NextBit | modules/wslop/wslop.c:80-81 | The comparison the loop makes is exactly whether the next bit belongs to the root |
| ManifestValues.EncodeManifest | tools/mkmodule.py:65-127 | The typed entries as aligned blocks closed by an end tag; refused exactly when one of them cannot be written |
| ManifestValues.ValueShown | tools/modinfo.py:47-63 | Every value that can be written for a known tag is shown as it was meant: numbers in decimal, named values by name, texts as they were, failsafes as path and number |
| ManifestValues.NumberedShown | tools/modinfo.py:47-63 | A text written under a number is shown as it was, unless a known tag has that number and the text is as long as its own values: then never |
| ManifestValues.NumberedExample | tools/modinfo.py:53-57 | The text 1000 under the number 8 is shown as another number |
| ManifestValues.SpecsShown | tools/modinfo.py:66-94 | The entries asked for are all found, in order, exactly when every tag is a known name or a number from 1 to 0x7FFF; each is under its tag, with its mark, and shows the value meant exactly when it is not mistaken so |
| ManifestLaws.BlockBytes | tools/mkmodule.py:119-121 | An entry byte by byte: the tag low byte first, its highest bit set if it is mandatory, the length, the value, and zeros up to four bytes |
| ManifestLaws.SizeTags | tools/mkmodule.py:27-50 | The numbers and shapes of the tags for sizes |
| ManifestLaws.TimeTags | tools/mkmodule.py:27-50 | Those of the tags for times |
| ManifestLaws.ChoiceTags | tools/mkmodule.py:27-51 | Those of the tags with names for their values, and those names |
| ManifestLaws.TextTags | tools/mkmodule.py:27-53 | Those of the tags for texts |
| ManifestLaws.OtherTags | tools/mkmodule.py:27-62 | Those of the remaining texts, of the failsafe and of the end |
| ManifestLaws.PlaceIs | tools/mkmodule.py:27-36 | No two tags share a name, so a tag is found by its own |
| ManifestLaws.NumberBytes | tools/mkmodule.py:84-85 | A number is one word, low byte first, refused exactly when it is none or does not fit |
| ManifestLaws.ChoiceBytes | tools/mkmodule.py:86-95 | A named value is one byte: the place of its name, whatever its case, or a number under 256 |
| ManifestLaws.TextBytes | tools/mkmodule.py:96-99 | A text is its bytes, 255 at most |
| ManifestLaws.FailsafeBytes | tools/mkmodule.py:100-115 | A failsafe is the number after the last `=` as a word, then the absolute path before it; exactly when it is refused |
| ManifestLaws.WalkVisits | tools/modinfo.py:66-94 | Which offsets the walk visits, what stands at each byte by byte, and why it stops at the last |
| Manifest.WalkManifest | tools/modinfo.py:66-94 | What the bounded walk finds, and how it ended, also when there are fewer bytes than the module claims |
| Manifest.NeverTorn | tools/modinfo.py:78-94 | A module that is all there is never run off the end of |
| Manifest.EntryBack | tools/modinfo.py:79-94 | An entry is read as it was written and the next is looked for where it stands |
| Manifest.BlocksBack | tools/modinfo.py:66-94 | Walking a manifest finds its entries, in order, exactly when every tag is between 1 and 0x7FFF |
| ModuleImage.Build | tools/mkmodule.py:131-154 | The image with its checksum, or a refusal exactly when a field does not fit or the name is not ASCII |
| ImageLaws.ImageLayout | tools/mkmodule.py:131-154 | Where everything is in an image, byte by byte: the header's fields, the entry point counted from the start of the code, the name closed by zeros, the manifest, the code to the very end, and a checksum of the same bytes with zeros in its place |
| ModuleImage.HeaderBack | tools/modinfo.py:97-100 | Every header field is read back as it was written |
| ModuleImage.SumBack | tools/modinfo.py:108-111 | The checksum computed on reading equals the one stored, for any checksum function |
| ModuleImage.Show | tools/modinfo.py:97-128 | What is shown of the module at the front of some bytes; one that claims more than there are has its checksum taken of those there are |
| ModuleImage.BuiltIsShown | tools/modinfo.py:97-128 | A built module shows every field, a good checksum, its name exactly if it holds no zero byte, and its entries exactly if their tags are plain |
| ModuleImage.List | tools/modinfo.py:135-147 | The walk over a store, a last module cut short included |
| ModuleImage.StoreListed | tools/modinfo.py:135-144 | A 4-byte-aligned run of modules is listed once each, in order |
| LineStream.Reader.GetLine | modules/modlib.h:143-165 | The next line of the stream, whatever the sizes of the reads |
| LineStream.CutIsShortened | modules/modlib.h:143-165 | A line handed out is the whole line, shortened only to fit the buffer |
| LineStream.LinesKeptIff | modules/modlib.h:143-165 | Every line is handed out, only shortened to fit, unless the buffer is a single byte and the last line has no newline |
| LineStream.NewlineEnds | modules/modlib.h:160-163 | A newline ends a line, which is what stands before it |
| LineStream.EndEnds | modules/modlib.h:153-157 | The end of the input ends one too, unless nothing is left |
| LineStream.ReturnIsNothing | modules/modlib.h:162 | A carriage return might as well not be there |
| LineStream.LineHandedOut | modules/modlib.h:160-163 | Of a line that a newline ends, as much is handed out as leaves room for the zero |
| Sort.Sorter.Cmp | modules/sort/sort.c:45-49 | The difference at the first place two strings differ |
| Sort.Sorter.Slide | modules/sort/sort.c:84-89 | A new offset slid in puts its line after the last not beyond it |
| Sort.Sorter.Take | modules/sort/sort.c:79-93 | One line parked and slid in; the text of the others never moves |
| Sort.SortedIsSorted | modules/sort/sort.c:68-94 | The result is in byte order and a permutation of what came in |
| Sort.Sorter.Run | modules/sort/sort.c:58-109 | Prints every line in order or, by the first line over a limit, says which limit and prints none, for any input and any reads |
| Sort.FineIff | modules/sort/sort.c:72-74 | Accepted exactly when every line is under 127 characters, at most 192 of them, and 4096 bytes with their ends |
| Sort.FirstFault | modules/sort/sort.c:72-74 | Of lines that do not all fit the first that does not says why: 127 characters or more, the 193rd, or past 4096 bytes |
| Sort.CompareIsOrder | modules/sort/sort.c:45-49 | The comparison is byte order: a beginning comes first, otherwise the lower byte at the first difference |
| Sort.PrintedInOrder | modules/sort/sort.c:105-108 | Every line printed is in byte order before those after it |
| Sort.PrintedIsTheInput | modules/sort/sort.c:105-108 | What is printed is exactly the lines that came in, sorted, if and only if none holds a zero byte |
| LogRing.Log.RingPut | main/logring.c:68-75 | The ring holds the last 8192 bytes ever put |
| LogRing.Log.Read | main/logring.c:256-272 | Exactly the window asked for of the last 8192 bytes ever put, as much of it as there is |
| LogRing.Log.DeferPut | main/logring.c:147-160 | A line held back, or counted lost when seven wait |
| LogRing.Log.Flush | main/logring.c:162-200 | The port gets the lines that wait, oldest first, and then, if any were lost, one word of how many |
| LogRing.Log.LogLine | main/logring.c:202-234 | After every line, the port's lines and those waiting are the whole history in order less the lost, and losses reported plus pending are those lost |
| Gpio.Driver.Open | components/rv9_io/src/drv_gpio.c:218-294 | Per pin the counts are those of the open paths, a pin somebody drives is driven, its direction is that, and it is reset by its first open and never again, whether or not opens fail; a reader leaves the direction as it was |
| Gpio.Driver.Close | components/rv9_io/src/drv_gpio.c:296-323 | Closing corrects the counts and leaves the direction |
| Gpio.Driver.SetDirection | components/rv9_io/src/drv_gpio.c:346-370 | After a change of mind the pin is an output exactly if some open path wants it; it is not reset |

## Left out

- Widths: counters are unbounded, as are sector numbers plus counts, references to a claim, and log and pin counts; layout coordinates are taken to fit 16 bits. Where width decides the answer it is written out: the touch mirror, the calendar, the square root, the header fields.
- Concurrency: each locked operation is one step. The log ring's lock-free writers and a flush entered again while flushing are not modelled.
- FlashDisk.Driver.Read: a device failure part of the way leaves the destination's earlier sectors filled, and the contract then says nothing about the rest of it.
- FlashDisk: the partition is a whole number of 4096-byte blocks; geometry, registration and statistics calls are not modelled.
- Shell.Session.RunTurns: runs a given number of turns, since a script may loop for ever; the script file does not change while it runs, reads do not fail before its end, and seeks do not fail.
- Shell: a shell at a terminal, prompts, `set`, `vars`, `help`, `status` and the way a command is forked, piped or redirected are not modelled; a command is any function of what has been issued before.
- ShellDepth.DepthLimit: says nothing of a script deeper than four in which a condition is repeated or an `if` has a second `else`; of those only nests are settled (NestingLimit), and one example.
- ShellVars.Table: names and values are sequences in fixed-size slots rather than zero-terminated characters; line text holds no zero byte.
- ShellConditions.RunLine: a command is a function of a world and its text; tokenizing is part of that function.
- Touch: timestamps of events, the controller's registers and the polling task are not modelled; a poll is any list of readings.
- ClaimTable: rv9_claim_list and building a resource name from a device name are not modelled; names fit their field.
- Console: fonts, colours resolved to pixels, margins and the DMA buffer are not modelled; a row's picture is its cells, attributes and cursor. A null argument to a setting is not modelled.
- Console.Driver.Write: characters and attributes are kept in one row of cells each instead of two flat arrays; a tab on a screen under four columns is excluded, since it would not end.
- WhiskerSink: how pieces of a document are spelled is any function of what is drawn, numbers and colours apart; `put` keeps everything it is given, and a body is any function of its sink and of a state it may change.
- Calendar: the entry point's printing, and the seconds of the day.
- Editor: escape-sequence decoding, the status line, messages, and reading and writing the file, which is a sequence of bytes loaded at the start and a save that works or not. A window of a single row, whose one row the status line takes, is treated as having two.
- Whisker: the document's text, glyphs, corner marks and carets; a widget's ink is any function of the widget, its rectangle and the point, and does not leave the rectangle. Fonts of zero height and tree initialisation are not modelled. Weights, padding and gaps are not negative.
- ManifestValues: parsing an integer, lower case, blanks, UTF-8 and hexadecimal are the host language's and are parameters; text is valid. Splitting a `NAME!=VALUE` argument and the printed columns are not modelled.
- LogRing: formatting; a line is its text, without zero bytes, and the port is present.
- Gpio: the four per-pin arrays are one array of records; interrupts, levels, pulse timing and getstat/setstat codes are not modelled.
- LineStream.Reader.GetLine: a failed read is the end of the input, as the code has it; reading again after one is not modelled.
- The scheduler, process manager, network, sensors, audio, descriptors, other command modules, documentation checkers and profile generator are not part of this model.
