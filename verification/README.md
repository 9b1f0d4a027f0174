# Verified model of the teaching kernel's core

The kernel runs three shells on three virtual terminals, up to six processes, a read-only
file system and a few user programs. This project models the parts of it where state is
shared or indirect, and proves what they are for:

- **Screens** (`Screen`, `Window`, `Desk`, `Typing`, `Terminals`). One global write position, one page
  table entry and four physical pages are shared by three terminals. Whatever is interleaved
  on them, output reaches the right screen, and a screen shows the last 25 rows of its own text
  laid out on an unbounded page. Only the echo of a key consults the shared write position; when
  a terminal still looks as its own input alone makes it look is stated exactly.
- **Processes** (`Processes`, `Scheduler`, `Runs`, `Kernel`). The kernel finds out which
  process runs from the stack pointer alone. Start-up, timer, execute and halt are shown to
  keep stack pointer, 128 MB mapping, kernel stack and saved contexts in agreement over every
  run, to serve the terminals in turn, and to return slots as they were, with programs that
  start programs included.
- **Files** (`FileSystem`, `Directory`, `Image`, `Descriptors`, `DescriptorRuns`). Reads through an
  inode's block list deliver the bytes of the file's own data blocks, on an image given by its
  parts; lookup by name is exact although names of 32 bytes have no terminator; the processes'
  descriptors are given out and read independently, except that all directories share one position.
- **grep** (`Grep`, `GrepReports`). The search through a sliding buffer reports what a search
  over the whole file reports.
- **Blinking characters** (`BlinkSpec`, `BlinkList`). A linked list threaded through a pool is
  an abstract list, and the blink state has a closed form.
- **Numbers, strings, memory, arguments** (`Numbers`, `Strings`, `Memory`, `Arguments`, with
  the lemmas of `Arithmetic`, the bytes of `Bytes` and the sizes of `Layout`). The in-place
  loops meet exact functional specifications.

Code that updates state in place is modelled by classes and methods over arrays, each proved
equal to a function on values; the results over whole runs are lemmas about those functions.
A trap handler or system call is one atomic step, and a page table change takes effect at once.

## Where the code does something else than it is meant to

These are results of the model, each with the exact condition for the intended behaviour.

- `sys_execute` records the displayed terminal as the new process' terminal, and the scheduler
  takes the process in a terminal's lowest slot for the one to run. After a started program the
  CPU runs the active process of the served terminal, and the invariant holds, exactly when that
  terminal was displayed and the new slot is below every process of the terminal but its shell
  (`ExecuteKeepsInvariantIff`). On a hidden terminal the next tick saves the child over the
  displayed terminal's context (`MisplacedExecuteLosesContext`); above its caller, the child is
  resumed with its caller's kernel stack, and its halt frees its caller's slot
  (`ExecuteAboveCallerConfuses`). Both happen from every boot (`HiddenExecuteAfterStartup`,
  `NestedExecuteAfterStartup`).
- A command without an argument ends at a NUL, and parsing reads on behind it: the string that
  lies in the memory there becomes the argument (`BareNameParses`).
- An empty file named as a command is judged by what the header buffer held before
  (`CommandStartsIff`).
- `sys_halt` keeps the invariant exactly when the caller is not shell 1 or 2
  (`HaltKeepsInvariantIff`). These shells share shell 0's parent data, so their halt goes back to
  the boot stack, the slot is given out next, and the scheduler still serves it
  (`ShellHaltLoadsShellZerosParent`); from every boot on a stack in the top slot, the next tick then
  ruins shell 0's saved context and resumes the halted shell (`ShellHaltAfterStartup`).
- The keyboard handler restores the old video mapping even after it has switched terminals. After
  any run the entry is right exactly when the terminal displayed at the last `putc` or tick is
  displayed again, or the served terminal is neither that one nor the displayed one
  (`Terminals.HandleAll`, `StaleMappings`, `StaleMappingAfterSwitch`). `putc` is not affected,
  because it sets the entry itself.
- Echoing a key consults the shared write position, which is always the cursor of the terminal last
  written to or brought up (`CoordinatesFollow`). Throughout a run a terminal looks as its own input
  alone makes it look exactly when each of its keys is echoed where these coordinates amount to
  its own cursor (`LooksAloneIff`, with `EchoesCompared` for a single echo); nothing of what other
  terminals hold shows on it exactly when they amount to the same whatever the others hold
  (`NoLeakIff`). `NoLeak` is a condition read off the events and the shared column, and
  `LeakThroughEcho` an input on which a hidden terminal shows.
- At a terminal's own cursor the echo equals `putc` exactly outside the last column, where the
  typed character goes to the next row (`TypingIsPut`, `TypingInLastColumn`; `EchoIsPut` for any
  coordinates).
- `fread` returns the request length even where less of the file is left; it returns the
  clamped length exactly when the request does not straddle the end (`ReadClampsIff`,
  `ShortFileReadsLong`).
- Directory descriptors of all processes share one position; it is where one descriptor's own reads
  would have left it exactly when all other directory reads make up whole listings
  (`DirectoriesShare`, `TwoListings`).
- The flag that the RTC is open is one for all descriptors. Of the descriptors that halt closes,
  those on the RTC stay open that find the flag cleared, be it by a lower one
  (`ClosedFromIs`, `SecondRtcStaysOpen`).
- A blinking character may be added at location 0, which is also the mark of a free pool slot. The
  list survives exactly if that is not done, and otherwise no chain of slots is a list any more
  (`IoctlAdd`); the next add then links a node to itself (`LocationZeroLoops`).
- grep cuts lines of more than 1024 bytes. It agrees with a search by lines, for every pattern,
  exactly on files without such lines (`StreamingIsLineSearch`). The empty pattern matches no line.
- `task_switch.c` carries unresolved merge markers. The side modelled is the one its comment
  describes: the next terminal modulo `NUM_TERMS`, and children looked for from slot 3 on.

## Model

| member | source | states |
|---|---|---|
| Screen.ScrollPage | student-distrib/lib.c:45-57 | the in-place loop moves every row's characters up one, blanks the last row and touches nothing else, as the pure `Scrolled` |
| Screen.ClearPage | student-distrib/lib.c:64-70 | the loop blanks exactly the 2000 cells |
| Screen.EchoesCompared | student-distrib/keyboard.c:481-506 | for any two pairs of shared coordinates, the echo leaves the same screen iff neither column is the last, both are and the rows are the same (or the last two, where scrolling would change no other cell), or one is and its line break would not show |
| Screen.EchoIsPut | student-distrib/keyboard.c:481-506 | the echo leaves the same page and cursor as `putc` iff the shared column is not the last, or the displayed cursor is already where the line break goes and, at the last row, scrolling would change no other cell |
| Screen.TypingIsPut | student-distrib/keyboard.c:481-506 | with the shared row at the displayed cursor, the echo is `putc`, or in the last column `putc` of a newline and then the character; so typing is `putc` iff the cursor is not in the last column |
| Screen.TypingInLastColumn | student-distrib/keyboard.c:486-502 | an input where they differ: on a blank screen with the cursor at (79,0), `putc` fills that cell and the echo leaves it blank |
| Window.ScreenIsWindow | student-distrib/lib.c:244-287 | after any bytes written to a cleared screen, its cells, attributes and cursor are those of the last 25 rows of the bytes laid out on an unbounded 80-column page; the cursor row is min(absolute row, 24) |
| Window.PutShows | student-distrib/lib.c:247-273 | one more byte written to a window onto a text gives a window onto the longer text, scrolled or not |
| Window.LaidOutAt | student-distrib/lib.c:257-266 | the unbounded layout loses nothing: each printed character stays at its own place |
| Window.LongLineWraps | student-distrib/lib.c:260-266 | a text without line breaks is laid out 80 to a row |
| Window.ShortLinesStackUp | student-distrib/lib.c:247-255 | a text whose lines do not fill a row is laid out a line to a row, a line ending at byte 10 or 13 |
| Window.ShowsInBytes | student-distrib/lib.c:257-258 | the window property on the bytes of video memory: character at 160 row + 2 column, attribute 7 behind it |
| Window.PutKeepsTail | student-distrib/lib.c:45-70 | the 96 bytes behind the 25 rows are never written |
| Desk.Isolation | student-distrib/lib.c:217-287 | for every interleaving of writes, changes of service, switches, Ctrl-L, Enter and echoed keys, a terminal's screen and cursor are what its own operations produce, an echo being one with the shared coordinates it finds |
| Desk.LooksAloneIff | student-distrib/keyboard.c:481-506 | after every event of a run a terminal looks as its own inputs alone make it look, keys typed at its own cursor, iff each of its keys is echoed where the shared coordinates amount to that cursor |
| Desk.CoordinatesFollow | student-distrib/keyboard.c:281-296 | in every state of a run the shared coordinates are the cursor of the terminal last written to or brought up |
| Desk.KeysFollowOwnSuffices | student-distrib/keyboard.c:481-506 | so it suffices that a terminal was the last one written to or brought up whenever one of its keys is echoed |
| Desk.NoLeakIff | student-distrib/keyboard.c:481-506 | of two runs that differ in what screens hold at first, a terminal looks the same throughout iff it starts out the same and each of its echoes finds coordinates that amount to the same |
| Desk.NoLeak | student-distrib/keyboard.c:481-506 | in particular if at each of its echoes it was the terminal last written to or brought up, or the shared column is at the right margin in neither run |
| Desk.LeakThroughEcho | student-distrib/keyboard.c:481-506 | an input where it does not: two runs that differ only in a hidden terminal's cursor end with different displayed screens |
| Desk.EchoesAgreeWithoutHiddenPrint | student-distrib/keyboard.c:281-296 | if no hidden terminal prints, the shared coordinates stay the displayed cursor and every echo breaks the line at its own row |
| Desk.EachTerminalShowsItsOwnText | student-distrib/terminal.c:213-223 | after any run, a terminal that started blank or was cleared, and whose echoes broke lines at its own row, shows the last 25 rows of the text it received itself since its last Ctrl-L |
| Typing.ControlFromEvents | student-distrib/keyboard.c:201-285 | after any run Shift, Ctrl and Alt are on iff the last press or release of the key was a press, or there was none and they were on; Caps Lock is turned over once per press; display and service are where the events last put them |
| Typing.TypedCharacters | student-distrib/keyboard.c:395-475 | a letter is a capital iff one of Shift and Caps Lock is on; with Shift, the 21 other keys type the other symbol of the two tables; nothing else changes |
| Typing.TypedTextShows | student-distrib/keyboard.c:361-506 | a text typed without Ctrl on the terminal written to last appears on it, broken at the right margin, and on no other |
| Typing.CtrlLClears | student-distrib/keyboard.c:291-300 | Ctrl-L leaves the displayed terminal blank, and changes no other |
| Typing.AltFnShows | student-distrib/keyboard.c:239-285 | Alt-Fn brings up the n-th terminal and changes no screen |
| Typing.OtherKeysDoNothing | student-distrib/keyboard.c:201-300 | other keys, and releases of keys that are no modifiers, do nothing |
| Typing.PrintedTextShows | student-distrib/terminal.c:213-223 | a printed text appears on the terminal in service, and on no other |
| Terminals.Terminals.constructor | student-distrib/page.c:82-85 | boot maps 0xB8000 and the three pages behind it, clears the screen and puts all cursors at (0,0) |
| Terminals.Terminals.CursorCheck | student-distrib/lib.c:217-228 | loads the served terminal's coordinates, maps its page, says whether it is displayed, and changes no screen |
| Terminals.Terminals.Putc | student-distrib/lib.c:244-287 | through the shared position and page entry, exactly the served terminal's screen gets the character; the hardware cursor stays at the displayed terminal's cursor |
| Terminals.Terminals.TerminalWrite | student-distrib/terminal.c:213-223 | writing a buffer is writing its bytes one by one to the served terminal |
| Terminals.Terminals.ServeTerminal | student-distrib/task_switch.c:163-171 | changing the served terminal changes no screen and maps its page |
| Terminals.Terminals.SwitchTo | student-distrib/keyboard.c:270-284 | swapping pages on Alt-Fn changes no terminal's screen, only which is displayed |
| Terminals.Terminals.ClearDisplay | student-distrib/keyboard.c:291-300 | Ctrl-L wipes the displayed terminal's screen and no other |
| Terminals.Terminals.NewLine | student-distrib/keyboard.c:361-389 | Enter acts on the displayed terminal like `putc` of a newline |
| Terminals.Terminals.KeyboardHandler | student-distrib/keyboard.c:177-517 | the whole handler, with shift, caps lock and echo, is one step of the three-screen model and puts mapping and served terminal back |
| Terminals.Terminals.EchoKey | student-distrib/keyboard.c:481-506 | an echoed key changes only the displayed terminal, as the shared coordinates dictate |
| Terminals.Terminals.Interleave | student-distrib/keyboard.c:177-517 | on the kernel's own state, any event sequence leaves each terminal with the replay of its own operations; it looks as its own inputs alone make it look throughout iff its keys are echoed at home; and one that started clean shows the last 25 rows of its own text |
| Terminals.Terminals.HandleAll | student-distrib/keyboard.c:182-183 | any event sequence is the run of the three-screen model; video memory and hardware cursor are then the displayed terminal's, and the page entry maps the served terminal's page iff the terminal displayed at the last `putc` or tick is displayed again or the served one is neither |
| Terminals.FrameAddress | student-distrib/page.c:82-85 | the frames of the model are the pages from 0xB8000 on |
| Terminals.StaleMappings | student-distrib/keyboard.c:516-517 | with terminal 0 served, switching the display 0-1 and 0-1-2 leaves a wrong entry, 0-1-0 the right one |
| Terminals.StaleMappingAfterSwitch | student-distrib/keyboard.c:516-517 | from boot, Alt-F2 leaves the kernel's own entry wrong |
| Processes.StackTellsProcess | student-distrib/syscalls.c:24-36 | any stack pointer inside a process' slot yields that process' number |
| Scheduler.TickKeeps | student-distrib/task_switch.c:104-217 | a timer tick keeps the invariant: mapping, tss.esp0, stack and saved contexts belong to the right processes |
| Scheduler.ExecuteKeeps | student-distrib/syscalls.c:216-296 | so does a program started on the displayed terminal in a slot below all its processes but the shell, and any failing execute |
| Scheduler.HaltKeeps | student-distrib/syscalls.c:55-110 | so does the halt of any executed process, and shell 0's |
| Runs.BootRunKeeps | student-distrib/task_switch.c:104-217 | from boot on, whatever terminals are brought up, the shells are started one by one, and in every state from the third tick on the invariant holds |
| Runs.StartupEstablishes | student-distrib/task_switch.c:64-98 | booting and three ticks establish the invariant, whatever terminals are brought up meanwhile; the first one served is the one after that displayed at the second tick, the saved contexts are those of the ticks that preempted the shells, and shells 1 and 2 have shell 0's parent data |
| Runs.RunKeeps | student-distrib/task_switch.c:104-217 | every state of every run of ticks, executes, halts and switches satisfies it |
| Runs.ContextIntegrity | student-distrib/syscalls.c:216-219 | in every state of every run the 128 MB entry and tss.esp0 are the running process' own, it is live and on the served terminal, and of that terminal's processes it alone waits for no child |
| Runs.SavedIsLastPreempted | student-distrib/task_switch.c:106-113 | during start-up and ever after, each saved context is exactly the stack, frame and mapping at the last tick that preempted the terminal, if one did |
| Runs.SavedSinceBoot | student-distrib/task_switch.c:173-198 | from the third tick after boot on there was such a tick for every terminal |
| Runs.ResumesWherePreempted | student-distrib/task_switch.c:202-216 | a tick that starts no shell gives the terminal it serves the stack, frame and memory of its last preemption, and it is the same process |
| Runs.ResumesSinceBoot | student-distrib/task_switch.c:202-216 | so does every tick from the third after boot on, the first resumption of each shell included |
| Runs.ServedInTurn | student-distrib/task_switch.c:116-171 | the served terminal is the first plus the number of ticks, modulo 3 |
| Runs.ThreeTicksServeAll | student-distrib/task_switch.c:34-59 | any three consecutive ticks serve each terminal exactly once |
| Runs.ExecuteTakesLowestSlot | student-distrib/syscalls.c:137-153 | execute takes the lowest free slot and no other; if none is free or nothing loads, nothing changes |
| Runs.HaltReturnsToExecute | student-distrib/syscalls.c:69-107 | however the run goes on in between, a child's halt resumes its parent where it called execute, with the parent's memory and kernel stack, and frees the slot |
| Runs.ExecuteThenHalt | student-distrib/syscalls.c:69-89 | execute followed by the child's halt restores process table, mapping and tss.esp0, whichever terminal is displayed and whichever slot is free |
| Runs.PagesAreDisjoint | student-distrib/syscalls.c:216-219 | in every state of every run, the memory the CPU has, that each saved context gets back and that each halting child gives back are pairwise disjoint 4 MB pages of live processes |
| Runs.PagesAreProgramPages | student-distrib/syscalls.c:216-219 | and each is the 4 MB page at 8 MB + 4 MB times a live process' slot, above every kernel stack and PCB; the CPU's is the running process' |
| Runs.CpuMapsProgramSinceBoot | student-distrib/syscalls.c:216-219 | so it is for the CPU from boot on |
| Runs.StartedInOwnPage | student-distrib/syscalls.c:216-297 | a started program runs in the page, and on the stack, of the lowest free slot |
| Runs.DisplayedIsLastShown | student-distrib/task_switch.c:104-217 | process management never changes the display |
| Runs.LegalIff | student-distrib/syscalls.c:55-297 | the requests the scheduler is built for are exactly those that keep the invariant |
| Runs.ExecuteKeepsInvariantIff | student-distrib/syscalls.c:282-283 | after a started program the active process of the served terminal runs, and the invariant holds, iff that terminal was displayed and the caller was its shell or the new slot is below the caller's |
| Runs.MisplacedExecuteLosesContext | student-distrib/syscalls.c:282 | if another terminal was displayed, the next tick saves the child's context over that terminal's, and the caller's terminal's is not saved |
| Runs.ExecuteAboveCallerConfuses | student-distrib/task_switch.c:46-53 | if the new slot is above the caller's, the child is resumed after three ticks with its own memory and its caller's tss.esp0, and its halt frees the caller's slot |
| Runs.HiddenExecuteAfterStartup | student-distrib/syscalls.c:282 | from every boot with no key pressed, the first program shell 1 starts breaks the invariant |
| Runs.NestedExecuteAfterStartup | student-distrib/syscalls.c:137-153 | from every boot with terminal 1 brought up, a program shell 1 starts keeps the invariant and a program that one starts breaks it |
| Runs.HaltKeepsInvariantIff | student-distrib/syscalls.c:56-60 | halt keeps the invariant iff the caller is not shell 1 or 2 |
| Runs.ShellHaltLoadsShellZerosParent | student-distrib/task_switch.c:72-76 | the halt of shell 1 or 2 loads the stack, mapping and tss.esp0 shell 0 was started from; its slot is the next to be given out and the scan still serves it |
| Runs.ShellHaltAfterStartup | student-distrib/syscalls.c:69-105 | from every boot on a stack in the top slot, with no key pressed, after shell 1's halt the next tick saves the boot mapping over shell 0's context and resumes shell 1 in a free slot |
| Kernel.Kernel.GetNextProc | student-distrib/task_switch.c:34-59 | the scan with its changing target yields the next terminal's child in the lowest slot, or its shell |
| Kernel.Kernel.PitHandler | student-distrib/task_switch.c:104-217 | the handler's updates are the step `Tick` of the state machine, start-up branches included |
| Kernel.Kernel.InitShells | student-distrib/task_switch.c:64-80 | the loop gives shells 1 and 2 the parent data of shell 0 and their own terminals |
| Kernel.Kernel.ReserveSlot | student-distrib/syscalls.c:137-153 | the slot loop marks the lowest free slot |
| Kernel.LoadProgram | student-distrib/syscalls.c:155-203 | a command loads iff it parses, its name is found and the file's first three bytes are the ELF magic; then with exactly the parsed argument |
| Kernel.CommandStartsIff | student-distrib/syscalls.c:137-203 | for every name of at most 31 bytes and argument of at most 128, execute starts a process iff a slot is free and the first entry of that name is a file whose first data block begins 7F 45 4C, or an empty one while the header buffer does |
| Kernel.Kernel.SysExecute | student-distrib/syscalls.c:123-297 | the whole call is the step `Execute`; every failure leaves the process table and the mapping as they were |
| Kernel.Kernel.SysHalt | student-distrib/syscalls.c:55-110 | the call is the step `Halt` |
| Kernel.Kernel.SysGetargs | student-distrib/syscalls.c:496-519 | delivers the argument in the running process' own PCB, found from the stack, or fails |
| Kernel.Kernel.HandleAll | student-distrib/syscalls.c:55-297 | carrying out any sequence of timer ticks, commands, halts and switches the scheduler is built for is a run of the state machine on the kernel's own state, so all that is proved of runs holds of it |
| Kernel.Kernel.BootAndRun | student-distrib/kernel.c:182 | so is everything from boot on, the start of the three shells included |
| Kernel.StartedProgramFindsItsArgument | student-distrib/syscalls.c:274-276 | the PCB of a started program makes getargs deliver exactly the command's argument, or refuse iff there is none or no room |
| Arguments.ParseCommand | student-distrib/syscalls.c:155-180 | the two copy loops yield name and argument cut at the first space, or reject, with the one byte a 33-byte name writes past its array |
| Arguments.BareNameParses | student-distrib/syscalls.c:158-180 | a name ended by NUL is accepted, with the string in the memory behind it as its argument |
| Arguments.CommandRefusedIff | student-distrib/syscalls.c:160-178 | a command is refused iff its name has more than 33 bytes or its argument more than 128 |
| Arguments.Getargs | student-distrib/syscalls.c:496-519 | succeeds iff there is an argument and room for it; then the buffer holds the clamped number of argument bytes and a NUL |
| Arguments.GetargsIff | student-distrib/syscalls.c:501-512 | on a parsed command, getargs delivers iff there is an argument and it fits the buffer |
| Arguments.ArgumentRoundTrip | student-distrib/syscalls.c:155-180 | for every name of at most 31 bytes and argument of 1 to 128, parse, PCB copy and getargs deliver exactly the argument |
| FileSystem.ReadData | student-distrib/file.c:88-123 | below the end of the file the requested bytes are copied as the inode locates them across blocks, from the end on nothing; only blocks the request touches are read |
| FileSystem.ContentSlice | student-distrib/file.c:101-120 | bytes so delivered are that slice of the file's data blocks laid end to end |
| FileSystem.ContentAt | student-distrib/file.c:101-113 | block index and offset find every byte where laying the blocks end to end puts it |
| Image.ContentIsFile | student-distrib/file.c:88-120 | on an image made of boot block, inodes and data blocks, the blocks laid end to end are the data blocks that the inode's little-endian numbers name |
| Image.ReadSlice | student-distrib/file.c:88-123 | on such an image `read_data` delivers the requested slice of these bytes, or nothing from the file's size on |
| Image.ReadFile | student-distrib/file.c:189-194 | reading to the end delivers the file's `size` bytes of them |
| Image.EntryRead | student-distrib/file.c:27-39 | entry i's name, type and inode number are the bytes of the boot block at 64 (i + 1), + 32 and + 36 |
| FileSystem.OpenFile.Fread | student-distrib/file.c:189-194 | delivers from the position and moves it by what was returned |
| FileSystem.OpenFile.ReadToEnd | student-distrib/file.c:189-194 | n bytes at a time, n dividing the block size, takes ceil(L/n) successful calls, delivers the file first, and needs no block at or past ceil(L/4096) |
| FileSystem.ReadClampsIff | student-distrib/file.c:97-109 | the returned count is the clamped one iff the request does not straddle the end |
| FileSystem.ShortFileReadsLong | student-distrib/file.c:97-109 | a request of 1024 bytes on a file of three returns 1024 |
| Directory.ReadDentryByIndex | student-distrib/file.c:27-39 | copies name, type and inode exactly, also where strcpy runs into the type; fails iff the index is out of range |
| Directory.LongerComparison | student-distrib/file.c:58-72 | comparing over the longer length is equality of name and query |
| Directory.ReadDentryByName | student-distrib/file.c:46-77 | succeeds iff some entry has the queried name, and returns the first such entry |
| Directory.Listing.DirRead | student-distrib/file.c:230-260 | hands out the name of the entry at the position, padded with NULs, and advances; behind the last entry nothing, and restarts |
| Directory.Listing.ListAll | student-distrib/file.c:230-260 | the k-th call yields the name of entry k mod (count + 1), the last of each cycle nothing |
| Descriptors.FileTable.SysOpen | student-distrib/syscalls.c:395-450 | fails without effect if the name is not there, else opens the entry's type on the lowest free descriptor |
| Descriptors.FileTable.SysClose | student-distrib/syscalls.c:458-490 | succeeds iff the descriptor is in use on a file, a directory or an open RTC; then only that descriptor is freed |
| Descriptors.FileTable.SysRead | student-distrib/syscalls.c:338-358 | delivers what the descriptor's file or directory holds at its position, and moves only that position |
| Descriptors.FileTable.CloseAll | student-distrib/syscalls.c:63-67 | the loop of halt closes descriptors 2 to 7 in turn, as `ClosedFrom` |
| Descriptors.ClosedFromIs | student-distrib/syscalls.c:458-490 | after it a descriptor is in use iff it was on the RTC and the shared flag was clear or a lower one was on the RTC too; the flag stays set iff none was; nothing else moves |
| Descriptors.SecondRtcStaysOpen | student-distrib/rtc.c:106-115 | with two descriptors on the RTC, the second stays open |
| DescriptorRuns.Run | student-distrib/syscalls.c:395-490 | over every sequence of open, close and read by several processes, each descriptor in use is on a file, a directory or the RTC, with its file's inode in the image |
| DescriptorRuns.TerminalStays | student-distrib/syscalls.c:458-490 | and descriptors 0 and 1 of every process stay open on the terminal |
| DescriptorRuns.OpenTakesLowest | student-distrib/syscalls.c:409-449 | a present name gets the lowest free descriptor of 2..7, pointing to its entry at position 0; it fails iff all six are in use |
| DescriptorRuns.CloseUndoesOpen | student-distrib/syscalls.c:458-490 | closing what was just opened frees exactly that descriptor again |
| DescriptorRuns.ReadsAreIndependent | student-distrib/syscalls.c:353-357 | whatever all processes open, close and read meanwhile, a descriptor in use that is not closed ends where its own reads alone take it |
| DescriptorRuns.ListingPosition | student-distrib/file.c:230-254 | after any sequence of calls the listing position counts the directory reads of all processes together, modulo the entry count plus one |
| DescriptorRuns.DirectoriesShare | student-distrib/file.c:230-254 | the position is as one open directory's own reads would have left it iff all other directory reads, by whatever process, are whole cycles |
| DescriptorRuns.TwoListings | student-distrib/file.c:230-254 | an input where it is not: two directories read in turn from the start |
| DescriptorRuns.HandleAll | student-distrib/syscalls.c:338-490 | carrying out such calls on the processes' tables, one listing position and one RTC leaves all of them as the abstract run says |
| Grep.DoOneFile | syscalls/ece391grep.c:9-66 | for every NUL-free file the output is the report of the pieces of the file that contain the pattern, once each and in order; the loop terminates |
| Grep.ScanBuffer | syscalls/ece391grep.c:28-57 | one bufferful is reported up to the carried-over rest, so that report and rest together still make the report of everything |
| Grep.StrcpyDown | syscalls/ece391support.c:14-17 | the overlapping copy moves the unfinished line to the front intact |
| Grep.SearchLine | syscalls/ece391grep.c:42-51 | finds the pattern iff it occurs in the line |
| Grep.SearchFilters | syscalls/ece391grep.c:40-57 | the piecewise report is the matching pieces in order |
| GrepReports.ReportIsLabelled | syscalls/ece391grep.c:44-50 | cut at its newlines, the output is file name, colon and line for each reported line, in order |
| GrepReports.ContainsIff | syscalls/ece391grep.c:42-44 | a line matches iff it is the non-empty pattern with anything before and behind |
| GrepReports.LinesSpell | syscalls/ece391grep.c:30-32 | the lines, each with a newline, spell the text |
| GrepReports.PiecesSpell | syscalls/ece391grep.c:20-60 | the pieces lose nothing of the text but its newlines |
| GrepReports.PiecesAreSmall | syscalls/ece391grep.c:20-60 | no piece has a newline or more than 1024 bytes |
| GrepReports.LineCutWhenFull | syscalls/ece391grep.c:33-38 | a line is cut only where a piece has 1024 bytes |
| Grep.StreamingIsLineSearch | syscalls/ece391grep.c:20-60 | agreement with the search by lines, for every pattern, iff no line is longer than 1024 bytes |
| BlinkSpec.BlinkClosedForm | fish/blink.S:49-99 | for all 16-bit lengths, on after k ticks iff k mod (on + off) < on, where a length the signed test rejects counts as 1 |
| BlinkSpec.AgesByTicksAlone | fish/blink.S:105-237 | through any run not aimed at its location an element only ages by the ticks |
| BlinkSpec.BlinksAsAdded | fish/blink.S:136-138 | hence the closed form, with the characters and lengths it was added with, for what a lookup shows after an add and any such run |
| BlinkSpec.SyncedBlinkTogether | fish/blink.S:267-275 | from a sync on, source and target go on and off together through any run that aims at neither |
| BlinkSpec.RemoveUndoesAdd | fish/blink.S:187-237 | removing what was just added gives the old list back |
| BlinkList.FullIff | fish/fish.c:160-170 | the pool is full iff the list has as many elements as there are slots |
| BlinkList.AddedInFront | fish/blink.S:156-162 | storing in a free slot conses onto the list, and keeps pool and list in agreement iff the location is not 0 |
| BlinkList.LocationZeroLoops | fish/fish.c:160-170 | after an add at location 0 the next add links a node to itself |
| BlinkList.BlinkList.FindHelper | fish/blink.S:351-379 | returns the first node with the location, or null |
| BlinkList.BlinkList.IoctlAdd | fish/blink.S:105-185 | fails iff the location is not below 2000 or 2000 elements are in the list, else conses a started element; the list is intact iff it failed or the location is not 0, and otherwise no chain of slots is a list |
| BlinkList.BlinkList.IoctlRemove | fish/blink.S:187-237 | deletes the first element with the location and frees its slot, or changes nothing |
| BlinkList.BlinkList.IoctlFind | fish/blink.S:302-349 | returns the first element with the location |
| BlinkList.BlinkList.IoctlSync | fish/blink.S:240-297 | copies the four timing fields from the first source to the first target, or changes nothing |
| BlinkList.BlinkList.RtcTasklet | fish/blink.S:49-99 | counts every element down exactly once |
| BlinkList.BlinkList.HandleAll | fish/blink.S:105-379 | under every sequence of operations the list stays acyclic with distinct nodes, a slot is in use iff it is in the list, and the contents are those of the abstract list |
| Numbers.Itoa | student-distrib/lib.c:295-325 | leaves exactly the numeral of the value, NUL-terminated |
| Numbers.Strrev | student-distrib/lib.c:331-344 | reverses the string in place |
| Numbers.NumeralRoundTrip | student-distrib/lib.c:295-325 | the numeral parses back to the value, has only digits and no leading zero unless it is "0" |
| Numbers.ParseRoundTrip | syscalls/ece391support.c:49-81 | every digit string without leading zero is the numeral of its value |
| Numbers.DigitCount | student-distrib/lib.c:313-318 | a numeral of n digits means radix^(n-1) <= value < radix^n |
| Numbers.DigitCharacters | student-distrib/lib.c:296 | the digits are the characters of the lookup table in its order |
| Numbers.HexPadded | student-distrib/lib.c:123-142 | `%#x` prints exactly eight hexadecimal digits that denote the value |
| Numbers.SignedDecimal | student-distrib/lib.c:155-168 | `%d` prints the sign and the magnitude's numeral, also for the least int |
| Memory.Memmove | student-distrib/lib.c:492-510 | a simultaneous copy for every overlap |
| Memory.MovedIs | student-distrib/lib.c:492-510 | after a simultaneous copy the destination holds what the source held and the rest is as it was |
| Memory.Memcpy | student-distrib/lib.c:446-483 | the alignment-split copy is a simultaneous copy unless the destination starts inside the source |
| Memory.Memset | student-distrib/lib.c:363-397 | every byte of the range becomes the low byte of the argument, nothing else changes |
| Memory.FilledIs | student-distrib/lib.c:363-397 | a filled range is that many copies of the byte between what was there before |
| Strings.Strlen | student-distrib/lib.c:350-355 | index of the first NUL |
| Strings.Strncmp | student-distrib/lib.c:523-537 | zero iff the strings agree up to their ends or n bytes, else the signed difference of the first bytes that differ |
| Strings.Strcpy | student-distrib/lib.c:544-552 | copies the string and its NUL and nothing else |
| Strings.Strncpy | student-distrib/lib.c:560-571 | the string cut and padded to n bytes |
| Strings.PaddedAt | student-distrib/lib.c:560-571 | byte by byte, the string up to its end and NULs behind |

## Left out

- Terminals.Terminals.KeyboardHandler: does not model Backspace, the RTC test keys, or the line buffers and their index.
- Terminals.Terminals.SwitchTo: the swap of the line buffers is not modelled.
- Terminals.Terminals.NewLine: sending and flushing the line buffer and the start position for Backspace are not modelled.
- Terminals.Terminals.EchoKey: the append to the line buffer is not modelled.
- Terminals.Terminals.constructor: the three backing pages are whatever memory held, because the code does not clear them; results that need a blank screen say so or ask for a Ctrl-L.
- Grep.DoOneFile: assumes that read returns min(wanted, remaining), that the file and the pattern hold no NUL, and that the uninitialised byte behind the buffer is not a newline; the kernel's own `fread` does not clamp, so that on it the padding behind the file is searched too, which is not modelled. Failing opens and reads are not modelled.
- FileSystem.ReadData: states its result over the data blocks, not clamped to the file length, as the code does.
- Descriptors.FileTable.SysRead: reads on stdin and the RTC wait for an interrupt and are not modelled.
- DescriptorRuns.HandleAll: leaves out reads on stdin and the RTC in the same way.
- BlinkList.BlinkList.HandleAll: asks for added locations other than 0; what happens otherwise is stated by `IoctlAdd` and `LocationZeroLoops`.
- BlinkList.BlinkList.IoctlAdd: the character poked to the screen is not modelled.
- BlinkList.BlinkList.IoctlSync: the character drawn at the target is not modelled.
- BlinkList.BlinkList.RtcTasklet: the characters poked to the screen are not modelled.
- BlinkList.BlinkList.IoctlFind: returns the element without the link that the copied structure also holds.
- Memory.Memcpy: nothing is said about a destination that starts inside the source.
- Kernel.Kernel.SysExecute: copying the program into its page, the entry point and the return to user mode are left out.
- Kernel.Kernel.SysHalt: the returned status is left out; closing the descriptors is `Descriptors.FileTable.CloseAll`, on the process' table.
- Kernel.Kernel.PitHandler: a context is one stack and one frame pointer taken on entry; what the command "shell" loads is a constant of the model, the same for every shell.
- The scheduler's results assume kernel stacks that do not overrun their slots.
- Interrupts inside a handler or system call, TLB flushes and register frames: each step is atomic.
- User writes to video memory through vidmap; port input and output; boot code and descriptor tables.
- Signals, exceptions, the other user programs and the Linux emulation of the fish program.
