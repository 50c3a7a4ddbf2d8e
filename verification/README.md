# student-distrib kernel core in Dafny

This project models the bookkeeping layer of the `student-distrib` x86 teaching
kernel. That layer sits around the kernel's inline assembly. The parts modelled are:

- the two-level page tables the kernel builds and edits;
- the process lifecycle calls `execute` and `halt`;
- the file-descriptor calls `open`, `close`, `read` and `write`, and the null operation table;
- the round-robin scheduler and its context switch;
- the three terminals and the keyboard line editor;
- the read-only file system;
- the real-time clock driver;
- the two 8259A interrupt controllers;
- the interrupt descriptor table.

Hardware effects are kept as abstract state:

- a CR3 reload is a `flushes` counter;
- saved `esp`/`ebp` pairs are a `Context` record;
- the ring-3 entry is a `Mode`;
- port writes are an append-only log.

One module per source area:

| Module | Source file | What it holds |
|---|---|---|
| `Common` | — | Shared vocabulary |
| `Elf` | — | The two ELF header fields `execute` reads (TIS ELF 1.2, Book I, chapter 1) |
| `Paging` | `bootinit/paging.c` | Page tables |
| `Process` | `sys/pcb.c`, plus the pid and address arithmetic of `sys/syscall.c` | Process bookkeeping |
| `Command` | command-line part of `sys/syscall.c` | Command-line split |
| `FileSystem` | `fsys/fs.c` | File system |
| `Syscall` | the rest of `sys/syscall.c` | System calls |
| `Scheduler` | `scheduler.c` | Scheduler |
| `Terminal` | `terminal.c` | Terminals |
| `Keyboard` | `keyboard.c` | Keyboard line editor |
| `Rtc` | `rtc.c` | Real-time clock driver |
| `Pic` | `i8259.c` | Interrupt controllers |
| `Idt` | `bootinit/idt.c` | Interrupt descriptor table |

Some constants are defined in headers that are not part of this model: `MAXBUFFER`, `NUM_VEC`, `KERNEL_CS`/`KERNEL_DS`, `EOI` and the port numbers. They are kept symbolic:

- `MAXBUFFER` is the length of the keyboard buffers, at least 1;
- `NUM_VEC` is a parameter above 0x80;
- segment selectors and ports are enumeration constructors;
- `EOI` is a parameter.

The process control block is modelled as the union of the fields the code uses. `scheduler.c` and `sys/syscall.c` use `my_esp`, `my_ebp`, `parent_esp`, `parent_ebp` and `term_index`, which the structure in `sys/pcb.h` does not declare.

## Model

| member | source | states |
|---|---|---|
| Common.U32 | student-distrib/fsys/fs.c:74 | the uint32_t a C int becomes: congruent to it modulo 2^32, and the value itself when already in range |
| Common.U32OfNegative | student-distrib/fsys/fs.c:101-103 | a negative difference read as unsigned is 2^32 larger |
| Common.Min | student-distrib/fsys/fs.c:101-103 | the smaller of two values is at most each and equal to one of them |
| Elf.Le32OfBytes | student-distrib/sys/syscall.c:106-107 | storing a 32-bit entry address least-significant byte first and loading it back gives the address |
| Elf.BytesOfLe32 | student-distrib/sys/syscall.c:106-107 | loading four bytes as a little-endian word and storing it back gives the bytes |
| Elf.Fill | student-distrib/sys/syscall.c:97-103 | a buffer that read_data wrote to holds the returned bytes at its front and keeps its previous contents behind them |
| Elf.HasMagicIsMagic | student-distrib/sys/syscall.c:100-103 | the executable check accepts a buffer exactly when it holds 7F 'E' 'L' 'F' |
| Process.UserPage | student-distrib/sys/syscall.c:133-134 | pid p's program page is 4 MB-aligned at or above 8 MB, and the six pages fit below 8 MB + 24 MB |
| Process.PcbAddress | student-distrib/sys/syscall.c:147-148 | pid p's PCB is an 8 KB-aligned block inside the kernel's 4 MB page |
| Process.KernelStackTop | student-distrib/sys/syscall.c:186-187 | the TSS stack pointer for pid p lies strictly inside p's own 8 KB block |
| Process.UserPagesDisjoint | student-distrib/sys/syscall.c:133-134 | distinct pids get disjoint 4 MB program pages |
| Process.PcbBlocksDisjoint | student-distrib/sys/syscall.c:147-148 | distinct pids get disjoint PCB blocks, and every PCB block lies below every program page |
| Process.LowestFree | student-distrib/sys/syscall.c:111-117 | the first free slot from a start index, or -1 exactly when none is free |
| Process.AllocatePid | student-distrib/sys/syscall.c:111-121 | the pid execute takes is free and every lower pid is taken; -1 exactly when all six are in use |
| Process.FreedPidIsReused | student-distrib/sys/syscall.c:111-117 | a slot freed by halt is handed out again once all lower slots are taken |
| Process.CountUsed | student-distrib/sys/syscall.c:144 | the number of used slots is 0 exactly when every slot is free |
| Process.CountUsedUpdate | student-distrib/sys/syscall.c:144 | taking a free slot adds one to num_procs and freeing a used one removes one, the invariant execute and halt keep |
| Command.Spaces | student-distrib/sys/syscall.c:57-60 | n spaces |
| Command.SkipSpaces | student-distrib/sys/syscall.c:57-60 | the skip loop stops at the first non-space, having passed only spaces |
| Command.FindSpace | student-distrib/sys/syscall.c:62-68 | the name loop stops at the first space, having passed only non-spaces |
| Command.Unparse | student-distrib/sys/syscall.c:57-90 | the command a split describes is spaces, name, and optionally one space and the arguments |
| Command.ParseCommand | student-distrib/sys/syscall.c:46-90 | a NULL command or a name over 32 characters is refused; any accepted split reassembles to the command, with a space-free name of at most 32 characters |
| Command.SplitAt | student-distrib/sys/syscall.c:76-90 | cutting at the end of the leading spaces and at the first space after them loses nothing |
| Command.UnparseParts | student-distrib/sys/syscall.c:76-90 | where the leading spaces, name, separator and arguments sit in the command |
| Command.ParseUnparse | student-distrib/sys/syscall.c:57-90 | parsing inverts Unparse: every well-formed split with a name of at most 32 characters is recovered exactly, and a longer name is refused |
| Command.SkipSpacesStops | student-distrib/sys/syscall.c:57-60 | the skip loop ends exactly where the leading spaces end |
| Command.FindSpaceStops | student-distrib/sys/syscall.c:62-68 | the name loop ends exactly at the first space after the name |
| Command.ArgumentsAreSuffix | student-distrib/sys/syscall.c:76-90 | the arguments are everything after the first space that follows the name, verbatim, with only that one separator dropped |
| Command.Overlay | student-distrib/sys/syscall.c:76-82 | the filename buffer after a set of stores: stored bytes where stored, previous contents elsewhere |
| Command.NameChars | student-distrib/sys/syscall.c:76-80 | the copy stores the name's characters at positions 0 to length-1 and nowhere else |
| Command.NameStoresAsWritten | student-distrib/sys/syscall.c:76-82 | as written, when a space follows the name the terminator goes at the space's position in the whole command, not after the name |
| Command.NameStores | student-distrib/sys/syscall.c:76-82 | the intended stores cover exactly the name and the one byte after it |
| Command.ReadBack | student-distrib/fsys/fs.c:26 | the C string a lookup sees is the NUL-free prefix of the buffer up to its first NUL |
| Command.ReadBackStopsAtNul | student-distrib/fsys/fs.c:26 | a buffer whose first NUL is at n reads back as its first n bytes |
| Command.NameStoresReadBack | student-distrib/sys/syscall.c:51 | with the intended stores and a 33-byte buffer, every store is in bounds and the lookup sees exactly the parsed name, whatever the buffer held |
| Command.NameTerminatorMisplaced | student-distrib/sys/syscall.c:82 | for " ls x" over a buffer of 'x' bytes, the code as written asks the file system for "lsx" instead of "ls" |
| Command.LongNameOverrunsBuffer | student-distrib/sys/syscall.c:71-73 | a 32-character name passes the length check and its terminator is stored at index 32, past the 32-byte buffer |
| FileSystem.FileContent | student-distrib/fsys/fs.c:79-97 | a file's content has exactly the inode's length |
| FileSystem.BlockOfByteUsed | student-distrib/fsys/fs.c:79 | every byte of a file lies in one of the data blocks the file uses |
| FileSystem.CLen | student-distrib/fsys/fs.c:259 | strlen of a name field is the index of its first NUL, or the field length when there is none |
| FileSystem.CLenUnique | student-distrib/fsys/fs.c:259 | any position with no NUL before it and a NUL at it is the strlen |
| FileSystem.DisplayName | student-distrib/fsys/fs.c:259-263 | a name field read as a C string is a prefix of the field |
| FileSystem.StrnEqUnterminated | student-distrib/fsys/fs.c:33-43 | strncmp over n characters with no NUL compares the plain prefixes |
| FileSystem.StrnEqTerminated | student-distrib/fsys/fs.c:36-43 | comparing a name together with its terminator is an exact C-string match |
| FileSystem.StrnEqMatchesDisplayName | student-distrib/fsys/fs.c:26-43 | the lookup's comparison (strlen+1 bytes, or 32 for a 32-character name) accepts an entry exactly when its C-string name equals the requested name |
| FileSystem.FindDentry | student-distrib/fsys/fs.c:36-54 | the scan finds the first matching entry among the first num_dentries, or -1 exactly when none matches |
| FileSystem.ReadDentryByName | student-distrib/fsys/fs.c:12-55 | fails for NULL arguments, more than 63 entries or a name over 32 characters; succeeds exactly when some entry matches, and then returns the first matching entry |
| FileSystem.ReadDentryByIndex | student-distrib/fsys/fs.c:57-72 | succeeds exactly when the index is below num_dentries (compared unsigned), returning that entry |
| FileSystem.LookupsAgree | student-distrib/fsys/fs.c:12-72 | the entry found by name is the one read again at its index |
| FileSystem.LocHoldsFileByte | student-distrib/fsys/fs.c:79-97 | byte p of a file is at image block num_inodes + 1 + dblocks[p / 4096], offset p mod 4096 |
| FileSystem.ReadData | student-distrib/fsys/fs.c:74-150 | intended read_data: -1 exactly for a bad inode or NULL buffer; otherwise 0 at or past the end and min(length, file length - offset) before it, and the bytes returned are that slice of the file |
| FileSystem.Range | student-distrib/fsys/fs.c:108-147 | a run of consecutive image addresses |
| FileSystem.SameBlock | student-distrib/fsys/fs.c:105-121 | bytes that do not cross a block boundary stay in the block of the first one |
| FileSystem.ReadDataAsWritten | student-distrib/fsys/fs.c:74-150 | read_data as written: the count uses the unsigned remaining length, and a read that spans blocks takes its first chunk from offset bytes past where it belongs, while later bytes come from the right addresses; the loop copies from exactly the addresses `AsWrittenLoc` gives |
| FileSystem.AsWrittenRead | student-distrib/fsys/fs.c:74-150 | read_data as written as a function: -1 exactly for a bad inode or NULL buffer, otherwise the unsigned-difference count and that many bytes, each read from memory at the address the loop copies it from |
| FileSystem.AsWrittenReadAgrees | student-distrib/fsys/fs.c:98-121 | read_data as written returns what the intended read returns for a read from inside the file, or at its end, that starts at offset 0 or stays within its first block |
| FileSystem.InBlockLocs | student-distrib/fsys/fs.c:105-121 | the bytes from the offset to the end of its block are taken from consecutive addresses of the block the inode names for that offset |
| FileSystem.BlockChunkLocs | student-distrib/fsys/fs.c:123-145 | a chunk copied from the start of a block is taken from consecutive addresses of the data block the inode names for it |
| FileSystem.PastEndReadsWrap | student-distrib/fsys/fs.c:101-103 | reading past the end, the code as written copies min(length, 2^32 - (offset - file length)) bytes, where the intended read copies none |
| FileSystem.SpanningReadMisplaced | student-distrib/fsys/fs.c:108 | for any nonzero offset the doubled offset lands on a different image address |
| FileSystem.FileOpen | student-distrib/fsys/fs.c:161-168 | file_open succeeds exactly when the name is found |
| FileSystem.FileRead | student-distrib/fsys/fs.c:179-191 | file_read over the intended read_data: fails untouched on a closed descriptor; otherwise it returns the intended count and bytes from the file position and advances the position by exactly that count |
| FileSystem.FileReadSlice | student-distrib/fsys/fs.c:179-191 | with the intended read_data, a read from a position inside the file returns the next bytes of the file and moves the position past them |
| FileSystem.ConsecutiveFileReads | student-distrib/fsys/fs.c:179-191 | with the intended read_data, two reads in a row return adjacent pieces of the file whose concatenation is the file from the first position on |
| FileSystem.FileReadAsWritten | student-distrib/fsys/fs.c:179-191 | file_read as the source calls read_data: fails untouched on a closed descriptor; otherwise -1 exactly for a bad inode or NULL buffer, else the as-written count of bytes, with the position advanced by the returned count |
| FileSystem.FileReadAsWrittenAgrees | student-distrib/fsys/fs.c:179-191 | file_read as written returns what the intended file_read returns when it starts at position 0 or stays within the block it starts in |
| FileSystem.SpanningReadSkipsAhead | student-distrib/fsys/fs.c:187 | a file_read from a position p in the first half of block 0 that runs past the block returns the file from byte 2p on, for its first 4096 - 2p bytes |
| FileSystem.ReadAfterShortReadSkipsAhead | student-distrib/fsys/fs.c:179-191 | reading an 8000-byte file 100 bytes and then 5000: the first read is bytes 0..99, but the second starts with bytes 200..4095 where the intended read gives bytes 100..3995 |
| FileSystem.FileClose | student-distrib/fsys/fs.c:213-216 | file_close succeeds and marks the descriptor closed |
| FileSystem.DirOpen | student-distrib/fsys/fs.c:225-232 | dir_open fails exactly for a NULL name and otherwise rewinds the cursor |
| FileSystem.NameBuffer | student-distrib/fsys/fs.c:256-263 | dir_read writes 33 bytes |
| FileSystem.DirRead | student-distrib/fsys/fs.c:243-274 | fails for descriptor 0, a NULL buffer or nbytes 0; below num_dentries it writes the entry's name NUL-padded to 33 bytes, returns its length (at most 32) and advances the cursor; past the end it returns 0 and rewinds |
| FileSystem.ListDirVisitsEveryEntry | student-distrib/fsys/fs.c:243-274 | reading a directory from any cursor lists every remaining entry's name in order, then returns 0 and rewinds |
| FileSystem.ListDirStep | student-distrib/fsys/fs.c:243-274 | one directory read in front of a listing adds the name at the cursor in front of the listed names |
| FileSystem.DirReadPastEnd | student-distrib/fsys/fs.c:252-272 | a directory read at or past the entry count returns 0, writes nothing and rewinds the cursor |
| FileSystem.DirClose | student-distrib/fsys/fs.c:296-303 | dir_close fails exactly for descriptor 0, and otherwise closes the descriptor and rewinds the cursor |
| Paging.EmptyTable | student-distrib/bootinit/paging.c:54-60 | a table of cleared entries |
| Paging.PdIdx | student-distrib/bootinit/paging.c:27 | the directory index is below 1024 and names the 4 MB region holding the address |
| Paging.PtIdx | student-distrib/bootinit/paging.c:28 | the table index is below 1024 and names the 4 KB page within that region |
| Paging.IndicesDetermineAddress | student-distrib/bootinit/paging.c:27-28 | the two indices and the page offset together determine the address |
| Paging.AddDirEntry | student-distrib/bootinit/paging.c:229-239 | a NULL physical address changes nothing; otherwise exactly the address's directory slot becomes phys \| flags |
| Paging.AddTableEntry | student-distrib/bootinit/paging.c:253-263 | a NULL physical address changes nothing; otherwise exactly the address's table slot becomes phys \| flags |
| Paging.FlushTlb | student-distrib/bootinit/paging.c:209-215 | a CR3 reload flushes once and changes no table |
| Paging.TermVaddr | student-distrib/bootinit/paging.c:31 | terminal t's user video address is page t of directory slot 33 |
| Paging.BackingPage | student-distrib/bootinit/paging.c:73-79 | terminal t's private page is kernel-table slot 0xB9 + t |
| Paging.PageInit | student-distrib/bootinit/paging.c:50-104 | the boot layout: directory slots 0, 1 and 33 set and every other slot cleared; kernel table maps 0xB8000 and 0xB9000 to the screen and 0xBA000, 0xBB000 to themselves; user table maps terminal 0 to the screen and terminals 1, 2 to 0xBA000, 0xBB000 |
| Paging.AddProgramPage | student-distrib/bootinit/paging.c:115-126 | directory slot 32 (virtual 128 MB) becomes phys with user, 4 MB and read-write, present exactly when adding; nothing else changes and the TLB is flushed |
| Paging.AddProgramPageIdempotent | student-distrib/bootinit/paging.c:115-126 | installing the same program page twice gives the same directory as once |
| Paging.SwitchVideoPage | student-distrib/bootinit/paging.c:137-186 | equal terminals succeed unchanged; an out-of-range terminal fails unchanged; otherwise only the two terminals' kernel and user slots change and the TLB is flushed |
| Paging.PageInitVideoConsistent | student-distrib/bootinit/paging.c:73-83 | after boot, terminal 0's addresses reach the screen and the others reach their own pages |
| Paging.SwitchVideoPagePreservesConsistency | student-distrib/bootinit/paging.c:166-182 | moving the screen to a new terminal keeps that invariant with the new terminal visible |
| Paging.RequestUserVideo | student-distrib/bootinit/paging.c:196-202 | the user screen pointer is 132 MB + 4 KB·t for t in 0..2 and NULL otherwise |
| Paging.UserVideoReachesScreen | student-distrib/bootinit/paging.c:196-202 | the pointer handed out for the visible terminal reaches the physical screen, and any other terminal's reaches its private page |
| Paging.PagingTester | student-distrib/bootinit/paging.c:273-304 | the self-test counts failures, 0 exactly when the three entries it checks match, and it expects 0xB9000 to map to itself |
| Paging.PagingTesterRejectsBootLayout | student-distrib/bootinit/paging.c:75 | the self-test reports one failure on the layout boot builds |
| Paging.PagingTesterCorrected | student-distrib/bootinit/paging.c:296-300 | the self-test expecting 0xB9000 to map to the screen, as boot maps it |
| Paging.PagingTesterCorrectedAcceptsBootLayout | student-distrib/bootinit/paging.c:296-300 | the corrected self-test passes on the boot layout |
| Syscall.SetFd | student-distrib/sys/syscall.c:311 | replacing one descriptor of the current process leaves every other PCB and every other kernel field alone |
| Syscall.InitialFds | student-distrib/sys/syscall.c:160-181 | a new process has terminal input on 0 and output on 1 in use, and 2..7 closed with null operations, inode -1 and position 0 |
| Syscall.HeadBytes | student-distrib/sys/syscall.c:97-100 | the magic buffer holds four bytes |
| Syscall.Execute | student-distrib/sys/syscall.c:45-221 | a started program leaves a well-formed kernel and a pid below 6 |
| Syscall.Enter | student-distrib/sys/syscall.c:111-221 | once a pid is taken: the slot is marked, num_procs grows by one, the PCB gets the caller as parent, the arguments and the initial descriptors, the process becomes current, the TSS points at its kernel stack, its page is installed, and it runs in user mode at the entry point |
| Syscall.ExecuteFailures | student-distrib/sys/syscall.c:46-121 | execute fails before taking a pid for a NULL command, a name over 32 characters, an unknown name, or no free pid |
| Syscall.ExecuteStartsElf | student-distrib/sys/syscall.c:96-121 | a file of at least four bytes is started exactly when it begins with the ELF magic and a pid is free, and then on the lowest free pid |
| Syscall.ExecuteEntersAtElfEntry | student-distrib/sys/syscall.c:106-221 | a started program runs as the caller's child with the parsed arguments and only descriptors 0 and 1 open; a file of 28 bytes or more is entered at the little-endian word at its byte 24 |
| Syscall.ExecuteEntersPastShortFile | student-distrib/sys/syscall.c:106-107 | a started program shorter than 24 bytes is entered at the word in memory at bytes 24..27 of the block its inode slot 0 names, past the end of the file |
| Syscall.ExecuteFoundFile | student-distrib/sys/syscall.c:96-221 | once the name is found, the magic check and a free pid decide whether execute enters the program |
| Syscall.HeadIsContent | student-distrib/sys/syscall.c:97-100 | for a file of four bytes or more the magic buffer is the file's first four bytes |
| Syscall.EntryIsContent | student-distrib/sys/syscall.c:106-107 | for a file of 28 bytes or more the entry point is the little-endian word at offset 24 |
| Syscall.EntryBeyondShortFile | student-distrib/sys/syscall.c:106-107 | for a file shorter than 24 bytes the wrapped count lets four bytes through, so the entry point is the word in memory at bytes 24..27 of the block inode slot 0 names, and for a non-empty file those are bytes 24..27 of its first data block |
| Syscall.EntryOfPartialHeader | student-distrib/sys/syscall.c:106-107 | for a file of 24 to 27 bytes the entry point is the word made of the file's bytes from 24 on followed by what the magic read left in the rest of the buffer |
| Syscall.SlotZeroInFirstBlock | student-distrib/fsys/fs.c:91-98 | for a non-empty file, slot 0 names a data block of the image, and the four bytes at its offset 24 are that block's bytes 24..27 |
| Syscall.EmptyFilePassesOnStaleMagic | student-distrib/sys/syscall.c:97-103 | the magic check looks at the buffer rather than the count read, so an empty file passes when the buffer already held the magic |
| Syscall.SystemClose | student-distrib/sys/syscall.c:350-372 | -1 and no change for descriptors outside 2..7, a closed descriptor or a failing close operation; otherwise only that descriptor is marked free |
| Syscall.NullOpsAlwaysFail | student-distrib/sys/pcb.c:9-32 | the null read, write, open and close fail for every argument |
| Syscall.NullBoundFdStaysOpen | student-distrib/sys/pcb.c:28-32 | closing a descriptor bound to the null operations always fails and leaves its flag set |
| Syscall.FirstFreeFd | student-distrib/sys/syscall.c:308-314 | the lowest descriptor from a start index that is not in use, or 8 when all are |
| Syscall.SystemOpen | student-distrib/sys/syscall.c:299-348 | -1 and no change for an unknown name or a full table; it succeeds exactly when the name is found, a descriptor from 2 is free and the file type is known, and then the lowest free descriptor from 2 holds the file's operations, inode and position 0 |
| Syscall.OpenFd | student-distrib/sys/syscall.c:306-347 | open on a free descriptor returns it with the file's operations, inode and position 0 exactly when the type is known, and otherwise fails leaving it marked in use |
| Syscall.BindOpened | student-distrib/sys/syscall.c:325-347 | the file type decides the operations bound to the descriptor; an unknown type fails and changes nothing further |
| Syscall.FailedOpenLeaksFd | student-distrib/sys/syscall.c:311-345 | an entry of unknown type makes open fail, yet the descriptor it took stays marked in use |
| Syscall.OpenCloseReopen | student-distrib/sys/syscall.c:299-372 | close frees what open returned, so the next open of the same name gets the same descriptor |
| Syscall.OpenAtFirstFree | student-distrib/sys/syscall.c:306-318 | open of a found name with a known type returns the first free descriptor from 2 on |
| Syscall.FirstFreeFdAt | student-distrib/sys/syscall.c:308-314 | the descriptor search stops at the first one not in use |
| Syscall.SystemRead | student-distrib/sys/syscall.c:267-282 | -1 and no change for a descriptor outside 0..7 or not in use; otherwise the bound read's result: the file read as the source calls read_data, the directory read (count, name written and the moved cursor), the terminal read or the clock read, and -1 for the output-only and null tables |
| Syscall.BufferText | student-distrib/keyboard.c:159-179 | the C string at the start of a buffer, up to its first NUL |
| Syscall.BufferInt | student-distrib/rtc.c:135 | the int32_t a buffer starts with is within the 32-bit signed range |
| Syscall.WriteDispatch | student-distrib/sys/syscall.c:284-297 | -1 and no change for a descriptor outside 0..7 or not in use; otherwise the bound write's result: the terminal shows the text, the clock programs a rate, every other table fails |
| Syscall.SystemWriteAsWritten | student-distrib/sys/syscall.c:293 | as written, a write to an open clock succeeds exactly on descriptors 0, 2 and 4, whatever frequency the buffer asks for |
| Syscall.RtcWriteReceivesDescriptor | student-distrib/sys/syscall.c:293 | asking for 1024 Hz on descriptor 3 fails and programs nothing as written, and programs rate 6 as intended |
| Syscall.SystemWrite | student-distrib/rtc.c:135-188 | intended write: a write to an open clock succeeds exactly when the buffer holds a supported frequency |
| Syscall.CloseFrom | student-distrib/sys/syscall.c:226-230 | halt's loop rebinds every remaining descriptor to the null operations, frees those whose close succeeds, and changes nothing outside the current PCB but the clock and directory cursor |
| Syscall.CloseOne | student-distrib/sys/syscall.c:227-229 | one round of halt's loop frees the descriptor when its close succeeds and rebinds it to the null operations, touching only the current PCB and, when it closes something, the clock or directory cursor |
| Syscall.HaltBookkeeping | student-distrib/sys/syscall.c:226-237 | after halt's bookkeeping the pid is free, num_procs is one lower, the parent is current, descriptors 0 and 1 and null-bound ones stay in use, and no other PCB changes |
| Syscall.ReleasePid | student-distrib/sys/syscall.c:233-237 | the pid is given back, num_procs drops by one and the parent becomes current; nothing else changes |
| Syscall.Halt | student-distrib/sys/syscall.c:223-265 | with no process left the shell is run again; a NULL parent is reported; otherwise the parent resumes with the status, its page and kernel stack back |
| Syscall.Resume | student-distrib/sys/syscall.c:245-250 | the parent's program page is present again, the TSS points at its kernel stack and its saved stack and frame pointers are in use |
| Syscall.CloseRejectsStandardFds | student-distrib/sys/syscall.c:354 | close refuses descriptors 0 and 1, so halt never frees them |
| Syscall.LastHaltFreesEveryPid | student-distrib/sys/syscall.c:233-242 | halting the last process frees every pid, so the restarted shell gets pid 0 |
| Syscall.StartedChild | student-distrib/sys/syscall.c:111-193 | a started process is current, took a free pid, has the caller as parent with the caller's pointers saved, and has only descriptors 0 and 1 open |
| Syscall.ExecuteThenHalt | student-distrib/sys/syscall.c:45-265 | execute and halt are inverse: a program started and halted at once returns the status to its caller, with pids, count, PCB, pointers, program page and kernel stack as before |
| Syscall.HaltUndoesStart | student-distrib/sys/syscall.c:223-265 | halting any state a start can lead to restores the starting process |
| Syscall.HaltFreshChild | student-distrib/sys/syscall.c:223-265 | halting a process that opened nothing returns to its parent and changes neither the clock nor the directory cursor |
| Syscall.UnimplementedCallsFail | student-distrib/sys/syscall.c:374-388 | getargs, vidmap, set_handler and sigreturn return -1 |
| Scheduler.StartedCount | student-distrib/scheduler.c:35-42 | the count of started terminals is 0 exactly when none is started |
| Scheduler.Dist | student-distrib/scheduler.c:45-49 | the number of forward steps from one terminal to another, going round |
| Scheduler.PidOnTerm | student-distrib/scheduler.c:51-57 | -1 exactly when no PCB is recorded for the terminal, otherwise the pid of that PCB |
| Scheduler.NextStartedExists | student-distrib/scheduler.c:45-49 | with two terminals started, a next started terminal after the current one exists |
| Scheduler.NextStartedUnique | student-distrib/scheduler.c:45-49 | at most one terminal is the next started one |
| Scheduler.NextStartedTerm | student-distrib/scheduler.c:45-49 | the cyclic scan stops at the first started terminal after the current one, which is never the current one |
| Scheduler.FindNextPid | student-distrib/scheduler.c:33-58 | -1 with at most one terminal started; otherwise the pid recorded for the next started terminal, or -1 when none is recorded |
| Scheduler.StartedCountAppend | student-distrib/scheduler.c:35-42 | the counting loop adds one exactly for each started terminal |
| Scheduler.ContextSwitch | student-distrib/scheduler.c:69-130 | no change when either pid is outside 0..5 or they are equal; otherwise the target's page is present, it becomes current, the TSS points at its kernel stack, the running pointers are saved in the source's PCB and the target's are loaded |
| Scheduler.SwitchThereAndBack | student-distrib/scheduler.c:113-129 | switching a to b and back resumes a on the pointers it was switched away at, with b's PCB as before |
| Scheduler.SchedulerPass | student-distrib/scheduler.c:16-23 | the timer count is reset; with at most one terminal started nothing else changes, otherwise the switch goes to the next started terminal's process |
| Scheduler.PassLeavesTerminal | student-distrib/scheduler.c:16-130 | with two terminals started, a pass moves the processor to another terminal's recorded process |
| Scheduler.EveryStartedTermIsReached | student-distrib/scheduler.c:45-49 | round robin: every started terminal is reached within two passes |
| Terminal.EmptySlot | student-distrib/terminal.c:37-50 | a cleared terminal fits the keyboard's buffers |
| Terminal.InitTerminal | student-distrib/terminal.c:34-54 | every terminal's buffers, index and screen position are cleared, and only terminal 0 is started and visible |
| Terminal.LaunchTerminal | student-distrib/terminal.c:63-66 | the visible terminal becomes started and nothing else changes |
| Terminal.SwitchTerminal | student-distrib/terminal.c:75-111 | -1 and no change outside 0..2, 0 and no change for the visible terminal; otherwise 0 with the requested terminal visible, the live line buffers and typing position (mod 256) saved into the outgoing terminal's slot, and the incoming slot's buffers and position loaded as the live ones |
| Terminal.SwitchMovesVisibility | student-distrib/terminal.c:96-107 | after a switch exactly the requested terminal is visible, it is started, and a shell is launched exactly when it had never been started |
| Terminal.StartedIsMonotone | student-distrib/terminal.c:63-107 | neither a switch nor a launch ever clears a started flag |
| Terminal.SwitchAwayAndBack | student-distrib/terminal.c:81-91 | switching away and back restores the live buffers, and the typing position modulo 256 |
| Terminal.LongLinePositionTruncated | student-distrib/terminal.c:90 | a typing position of 256 or more does not survive the round trip through the uint8_t slot |
| Keyboard.CapsTablesChangeOnlyLetters | student-distrib/keyboard.c:51-84 | table 3 is table 1 with letters upper-cased, and table 4 is table 2 with letters lower-cased |
| Keyboard.Zeros | student-distrib/keyboard.c:189-191 | n NUL characters |
| Keyboard.InitKeys | student-distrib/keyboard.c:186-196 | after init the line is all NUL and no line is complete |
| Keyboard.WriteToBuffer | student-distrib/keyboard.c:293-309 | no change at position MAXBUFFER-1 or beyond; otherwise the character is stored at the position, which moves on by one and never exceeds MAXBUFFER-1 |
| Keyboard.BackspaceBuffer | student-distrib/keyboard.c:316-329 | no change at position 0; otherwise the position moves back and that character is cleared; the flag is cleared either way |
| Keyboard.EnterBuffer | student-distrib/keyboard.c:336-350 | the typed line becomes the completed line, the typed line is cleared and position and column return to 0 |
| Keyboard.HandleScancode | student-distrib/keyboard.c:203-286 | no scancode moves the typing position outside the buffer |
| Keyboard.Act | student-distrib/keyboard.c:242-277 | no key press moves the typing position outside the buffer |
| Keyboard.ReleaseNeverWrites | student-distrib/keyboard.c:214-224 | a release never writes a character and can only clear shift or control |
| Keyboard.PressFlagEffects | student-distrib/keyboard.c:228-236 | caps lock toggles, and Enter raises the completed-line flag |
| Keyboard.OrdinaryKeyWritesTableEntry | student-distrib/keyboard.c:258-277 | an ordinary key writes the entry of the table picked by shift and caps, or nothing for a NUL entry |
| Keyboard.ControlSwallowsKeys | student-distrib/keyboard.c:242-251 | while control is held nothing is written, and control-L resets the column |
| Keyboard.WriteKeepsClean | student-distrib/keyboard.c:293-309 | writing keeps everything from the typing position on NUL |
| Keyboard.BackspaceKeepsClean | student-distrib/keyboard.c:316-329 | a backspace keeps everything from the typing position on NUL |
| Keyboard.HandleScancodeKeepsClean | student-distrib/keyboard.c:203-286 | every scancode keeps everything from the typing position on NUL |
| Keyboard.PressFlagsKeepLine | student-distrib/keyboard.c:226-240 | the flag updates of a key press leave the typed line, the completed line and the typing position alone |
| Keyboard.ActKeepsClean | student-distrib/keyboard.c:242-280 | whatever character a key press carries, acting on it keeps everything from the typing position on NUL |
| Keyboard.WriteThenBackspace | student-distrib/keyboard.c:293-329 | typing a character and backspacing restores the editor exactly |
| Keyboard.TerminalRead | student-distrib/keyboard.c:117-148 | 0 for a NULL buffer or negative length; otherwise min(length, MAXBUFFER) characters of the completed line, with the typed line cleared and the flag lowered |
| Keyboard.EnterThenRead | student-distrib/keyboard.c:117-148 | a line typed and entered is exactly what the next read returns |
| Keyboard.TerminalWrite | student-distrib/keyboard.c:159-179 | 0 for a NULL buffer or negative length; otherwise the first min(length, strlen) characters are shown and counted |
| Rtc.ShiftRightAdd | student-distrib/rtc.c:140-177 | shifting by a + b is shifting by a, then by b |
| Rtc.SlowestIs2Hz | student-distrib/rtc.c:74-87 | rate 15 gives 2 Hz |
| Rtc.RateFor | student-distrib/rtc.c:140-177 | every accepted frequency maps to rate 0 or a rate in 6..15 |
| Rtc.RateForMatchesFrequency | student-distrib/rtc.c:140-177 | the table agrees with the MC146818 rate formula: a nonzero rate is chosen exactly for the frequency it produces, rate 0 exactly for 0 Hz |
| Rtc.RegisterA | student-distrib/rtc.c:179-185 | the byte written keeps Register A's upper nibble and puts the rate in the lower one |
| Rtc.ProgramRate | student-distrib/rtc.c:179-185 | Register A gets the rate with the upper nibble kept, written through the index and data ports |
| Rtc.RtcWrite | student-distrib/rtc.c:135-188 | -1 and no port access for an unsupported frequency; otherwise 0 with Register A's rate set to the frequency's rate |
| Rtc.RtcOpen | student-distrib/rtc.c:74-87 | open programs the 2 Hz rate and returns 0 |
| Rtc.RtcClose | student-distrib/rtc.c:96-109 | close programs rate 15 and returns 0 |
| Rtc.OpenCloseAreWrite2 | student-distrib/rtc.c:74-109 | opening or closing is writing 2 Hz |
| Rtc.HandleInterrupt | student-distrib/rtc.c:46-65 | the handler acknowledges through Register C and raises the flag |
| Rtc.RtcRead | student-distrib/rtc.c:118-126 | a read after an interrupt returns 0 and lowers the flag |
| Rtc.ReadConsumesInterrupt | student-distrib/rtc.c:46-126 | each read consumes exactly one interrupt |
| Pic.LoopMaskValue | student-distrib/i8259.c:47-53 | enable_irq's loop mask has every low bit set except bit n for n < 8, and all bits from 8 steps on |
| Pic.LoopMaskSaturates | student-distrib/i8259.c:47-53 | from 8 steps on the loop mask's low byte is all ones |
| Pic.ClearsExactlyBit | student-distrib/i8259.c:56-66 | and-ing the loop mask clears exactly bit n |
| Pic.EnableIrqAsWritten | student-distrib/i8259.c:45-72 | as written: a slave line clears its bit of the slave mask; a master line also updates the slave mask and sends the unchanged master mask |
| Pic.EnableIrq | student-distrib/i8259.c:45-72 | intended: slave lines behave as written, and a master line's update goes to the master mask |
| Pic.EnableMasterLine | student-distrib/i8259.c:62-68 | intended enable of line n ≤ 7 unmasks exactly master bit n and sends the new master mask |
| Pic.EnableSlaveLine | student-distrib/i8259.c:55-61 | enabling line 8..15 unmasks exactly slave bit n-8 and sends the new slave mask |
| Pic.EnableKeyboardAsWritten | student-distrib/i8259.c:66 | from the initial masks the keyboard line stays masked as written, while the intended enable unmasks it |
| Pic.LowBitOf | student-distrib/i8259.c:82-86 | the 8-bit part of 1 << s is bit s for s < 8 and 0 otherwise |
| Pic.DisableIrqAsWritten | student-distrib/i8259.c:75-98 | as written, disable never changes the slave mask, and for lines up to 15 only sets bit (n mod 8) of the master mask |
| Pic.DisableIrq | student-distrib/i8259.c:75-98 | intended: a master line masks its master bit, a slave line its slave bit |
| Pic.DisableMasterLine | student-distrib/i8259.c:75-98 | disabling line n ≤ 7 masks exactly master bit n |
| Pic.DisableSlaveLine | student-distrib/i8259.c:75-98 | disabling line 8..15 masks exactly slave bit n-8 |
| Pic.EnableThenDisableIrq | student-distrib/i8259.c:45-98 | disable undoes enable: both masks are as before with the line masked |
| Pic.SetsExactlyBit | student-distrib/i8259.c:82-86 | or-ing in bit n sets exactly that bit |
| Pic.EnableThenDisable | student-distrib/i8259.c:45-98 | clearing bit n and setting it again leaves the mask with bit n set and all else as before |
| Pic.DisableRtcAsWritten | student-distrib/i8259.c:77-87 | disabling the clock line 8 as written masks master bit 0, the timer, and leaves the slave alone |
| Pic.SendEoi | student-distrib/i8259.c:101-111 | a master line gets EOI \| n on the master; a slave line gets EOI \| (n-8) on the slave, then EOI + 2 on the master; masks unchanged |
| Pic.SpecificEoiNamesLine | student-distrib/i8259.c:101-111 | with the specific-EOI command each line's acknowledgement names its own level, and a slave line also acknowledges the cascade |
| Idt.PopulateIdt | student-distrib/bootinit/idt.c:13-81 | every gate is present, 32-bit and in the kernel code segment; privilege 3 only for 0x80; trap gates exactly below 0x20; dedicated handlers for exceptions 0..0x13 except 0x09 and 0x0F; keyboard, clock and system-call entries at 0x21, 0x28 and 0x80; the catch-all everywhere else |
| Idt.ExceptionHandler | student-distrib/bootinit/idt.c:50-69 | an exception vector gets its own handler or the catch-all |

## Left out

- Inline assembly is not modelled. This covers CR0/CR3/CR4 writes, `lidt`, the ring-3 `iret` and `leave; ret` in halt. The model keeps only their effect: the `flushes` counter, `Mode` and `Context`.
- Port I/O is modelled only as a log of written values for the PIC and the clock. The `inb` of the keyboard scancode is the scancode parameter.
- Screen output is not modelled: `putc`, `update_cursor`, `clear`, the cursor positions and the screen copy in `switch_video_page` and `update_screen`.
- Interrupts and `cli`/`sti` are left out. Each handler runs as one atomic step.
- The busy waits in `terminal_read` and `rtc_read` are left out. Instead, the flag they wait for is a precondition.
- `i8259_init`'s initialisation words are left out. The handlers' own disable/send_eoi/enable bracketing is covered by `Pic`, not repeated in `Rtc` and `Keyboard`.
- Loading the program into its page is left out: `images` records the bytes read but no property is stated about them.
- The `root_pcb` branches of `context_switch` are left out. `context_switch` rejects pid -1 before reaching them, so they never run.
- The old scheduler, PIT programming, duplicate device handlers and the top-level stub files are not modelled. They are not the running kernel.
- Syscall.Halt: the ShellRestart outcome stops before running the shell again. `LastHaltFreesEveryPid` shows that the next execute gets pid 0.
- Syscall.Halt: the return into the parent is modelled by `Resume` and `Mode`, not by the stack frame `leave; ret` unwinds.
- Syscall.Valid assumes each PCB's pid field names its own block. execute writes it that way and nothing else writes it.
- Syscall.Execute looks the file up under the parsed name, which is what the filename buffer evidently should hold. The buffer as written is covered under Findings.
- Syscall.Execute: the argument buffer is `MAXBUFFER` bytes, but the model keeps the arguments unbounded.
- FileSystem.FileRead: the position is an `int32_t` that grows by the returned count. Its 32-bit wrap-around is not modelled, and the content properties hold for positions below 2^32. The same holds for FileSystem.FileReadAsWritten.
- FileSystem.FileRead, FileSystem.FileReadSlice and FileSystem.ConsecutiveFileReads are about file_read over the intended read_data, the corrected member of the Findings row for fs.c:187. The system calls use FileSystem.FileReadAsWritten, and FileSystem.FileReadAsWrittenAgrees says when the two agree.
- FileSystem.AsWrittenRead, FileSystem.FileReadAsWritten and Syscall.SystemRead take the memory outside the image's data blocks as a parameter, `outside`: the misplaced addresses can leave the data region, and its bytes are not part of the image. So does Syscall.Execute, whose entry-point read reaches past the end of a file shorter than 24 bytes.
- FileSystem.AsWrittenRead, FileSystem.FileReadAsWritten and Syscall.SystemRead require, like FileSystem.ReadDataAsWritten, the starting block slot to lie within the inode's 1023 slots.
- FileSystem.ReadDentryByIndex and FileSystem.DirRead require that an index below an unsigned-compared count stays within the 63 stored entries. The source would read past the boot block otherwise.
- FileSystem.ReadDataAsWritten requires the starting block slot offset / 4096 to lie within the inode's 1023 slots. The source reads that slot before any check.
- Pic.DisableIrqAsWritten requires line numbers below 40. A larger line shifts a 32-bit 1 by 32 or more, which C leaves undefined.
- Scheduler.FindNextPid requires the current process's terminal to be 0..2. The source indexes the terminal array with it unchecked.
- Idt.PopulateIdt requires NUM_VEC above 0x80. The source writes vector 0x80 unconditionally.
- Terminal.SwitchTerminal does not model the screen positions saved and restored through `set_terminal_position` and `update_screen`.
- Keyboard.HandleScancode models one scancode. The source's `do { … } while (1)` loop always leaves after one iteration.
- Keyboard.HandleScancode: the release branch's caps-lock test can never hold, because the caps press code lacks the high bit, so it is not modelled as an effect.

## Findings

| source | as written | input that shows it | evidently intended | confidence | as-written member | corrected member |
|---|---|---|---|---|---|---|
| student-distrib/bootinit/paging.c:296-300 | the self-test expects virtual 0xB9000 to map to itself | the layout `page_init` builds (paging.c:75 maps 0xB9000 to 0xB8000): one failure | expect the screen 0xB8000 at 0xB9000 | high, not executed | Paging.PagingTesterRejectsBootLayout | Paging.PagingTesterCorrectedAcceptsBootLayout |
| student-distrib/fsys/fs.c:108 | a read spanning blocks copies its first chunk from `curr_dblock + offset`, where `curr_dblock` already includes the in-block offset | any offset > 0 with a read that crosses into the next block | copy from `curr_dblock` | high, not executed | FileSystem.SpanningReadMisplaced | FileSystem.ReadData |
| student-distrib/fsys/fs.c:187 | file_read passes the descriptor's position to read_data as the offset, so after a read that ends inside block 0 the next read that crosses a block boundary takes its first chunk from twice the position | an 8000-byte file read 100 bytes and then 5000: the second read starts at byte 200 | the second read starts at byte 100 | high, not executed | FileSystem.ReadAfterShortReadSkipsAhead | FileSystem.ConsecutiveFileReads |
| student-distrib/fsys/fs.c:101-103 | the remaining length is an unsigned difference, which wraps when the offset is past the end | offset = length + 1, length 10: 10 bytes copied instead of 0 | return 0 at or past the end | high, not executed | FileSystem.PastEndReadsWrap | FileSystem.ReadData |
| student-distrib/sys/syscall.c:82 | the name's terminator is stored at the index of the space in the whole command | " ls x" over a buffer of 'x' bytes: the lookup is asked for "lsx" | store it right after the name | high, not executed | Command.NameTerminatorMisplaced | Command.NameStoresReadBack |
| student-distrib/sys/syscall.c:71-73 | a 32-character name passes the check into the 32-byte buffer of line 51, and its terminator lands at index 32 | a command of 32 'a' characters | a 33-byte buffer, or reject 32 characters | high, not executed | Command.LongNameOverrunsBuffer | Command.NameStoresReadBack |
| student-distrib/i8259.c:66 | the master branch of enable_irq ands the mask into `slave_mask` and sends the unchanged master mask | enable_irq(1), the keyboard, from all lines masked: master stays 0xFF | update and send `master_mask` | high, not executed | Pic.EnableKeyboardAsWritten | Pic.EnableMasterLine |
| student-distrib/i8259.c:77-87 | disable_irq subtracts 8 before testing for a slave line, so lines 8..15 set a master bit and the slave branch never masks anything | disable_irq(8), the clock: master bit 0 (the timer) is set | mask slave bit n-8 | high, not executed | Pic.DisableRtcAsWritten | Pic.DisableSlaveLine |
| student-distrib/sys/syscall.c:293 | the clock's one-argument write receives the descriptor number as its frequency (rtc.c:135) | a 1024 Hz request on descriptor 3: -1, nothing programmed | pass the int32_t in the buffer | medium, not executed | Syscall.RtcWriteReceivesDescriptor | Syscall.SystemWrite |
