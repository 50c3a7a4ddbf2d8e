/**
 * The system calls: execute, halt, read, write, open and close, and the four
 * calls that are not implemented. The kernel state they act on is gathered in
 * one record: the process table, the PCBs, the current process, the TSS stack
 * fields, the page tables, the saved stack and frame pointers of the running
 * kernel code, the devices and the file-system image.
 */
module Syscall {
  import opened Common
  import opened Process
  import FileSystem
  import Command
  import Elf
  import Paging
  import Rtc
  import Keyboard
  import Terminal

  /** The user stack pointer a new program starts with: the last word of its 4 MB page at 128 MB. */
  const NEW_ESP: int := MB_128 + FOUR_MB - 4
  /** The command run_shell executes. */
  const SHELL: CString := "shell"

  /** Where the processor is after a call: still in the kernel, or in a program at `entry` with stack `esp`. */
  datatype Mode = KernelMode | UserMode(entry: Word, esp: int)

  /** The TSS fields the kernel sets: the ring-0 stack segment and pointer. */
  datatype Tss = Tss(ss0: Segment, esp0: int)

  /**
   * The kernel state the calls use. `procs` is process_array, `numProcs`
   * num_procs, `curr` the pid whose PCB curr_pcb points at, `cpu` the kernel
   * stack and frame pointers of the code running now, `images` the program each
   * pid's page holds, `dirCursor` the directory-read position,
   * `terminalPcbs` the pid running on each terminal, and `pitTicks` the timer
   * count the scheduler resets.
   */
  datatype Kernel = Kernel(
    procs: seq<int>,
    numProcs: int,
    curr: Option<nat>,
    pcbs: seq<Pcb>,
    tss: Tss,
    tables: Paging.Tables,
    cpu: Context,
    mode: Mode,
    fs: FileSystem.Image,
    dirCursor: Word,
    clock: Rtc.Clock,
    desk: Terminal.Desk,
    images: seq<seq<Byte>>,
    terminalPcbs: seq<Option<nat>>,
    pitTicks: int)

  /**
   * The shape of the state: six slots and PCBs, eight descriptors each, a PCB's
   * pid field naming its own block, num_procs counting the used slots, PCB
   * pointers inside the PCB area, a valid file-system image with at most 63
   * entries and a valid terminal desk.
   */
  predicate Valid(k: Kernel)
  {
    |k.procs| == MAX_PROCS && |k.pcbs| == MAX_PROCS && |k.images| == MAX_PROCS
    && (forall p :: 0 <= p < MAX_PROCS ==> |k.pcbs[p].fds| == MAX_FDS && k.pcbs[p].pid == p)
    && (forall p :: 0 <= p < MAX_PROCS && k.pcbs[p].parent.Some? ==> k.pcbs[p].parent.value < MAX_PROCS)
    && k.numProcs == CountUsed(k.procs)
    && (k.curr.Some? ==> k.curr.value < MAX_PROCS)
    && FileSystem.ImageValid(k.fs) && 0 <= k.fs.numDentries <= FileSystem.MAX_DENTRIES
    && Terminal.Valid(k.desk)
    && |k.terminalPcbs| == MAX_TERMS
    && (forall t :: 0 <= t < MAX_TERMS && k.terminalPcbs[t].Some? ==> k.terminalPcbs[t].value < MAX_PROCS)
  }

  /** The descriptors of the current process. */
  function CurrFds(k: Kernel): (fds: seq<FdEntry>)
    requires Valid(k) && k.curr.Some?
    ensures |fds| == MAX_FDS
  {
    k.pcbs[k.curr.value].fds
  }

  /** Replace descriptor `fd` of the current process. */
  function SetFd(k: Kernel, fd: int, e: FdEntry): (k': Kernel)
    requires Valid(k) && k.curr.Some? && 0 <= fd < MAX_FDS
    ensures Valid(k') && k'.curr == k.curr && CurrFds(k') == CurrFds(k)[fd := e]
    ensures k'.(pcbs := k.pcbs) == k
    ensures forall p :: 0 <= p < MAX_PROCS && p != k.curr.value ==> k'.pcbs[p] == k.pcbs[p]
    ensures k'.pcbs[k.curr.value] == k.pcbs[k.curr.value].(fds := CurrFds(k)[fd := e])
  {
    var c := k.curr.value;
    k.(pcbs := k.pcbs[c := k.pcbs[c].(fds := k.pcbs[c].fds[fd := e])])
  }

  // ---------------------------------------------------------------------------
  // execute

  /** The descriptors a new process starts with: terminal input and output on 0 and 1, the rest closed. */
  function InitialFds(inode: int): (fds: seq<FdEntry>)
    ensures |fds| == MAX_FDS
    ensures fds[0] == FdEntry(StdinOps, inode, 0, true) && fds[1] == FdEntry(StdoutOps, inode, 0, true)
    ensures forall i :: 2 <= i < MAX_FDS ==> fds[i] == UNUSED_FD
  {
    [FdEntry(StdinOps, inode, 0, true), FdEntry(StdoutOps, inode, 0, true),
     UNUSED_FD, UNUSED_FD, UNUSED_FD, UNUSED_FD, UNUSED_FD, UNUSED_FD]
  }

  /** Result of execute: -1 before any pid is taken, or the new process has been entered. */
  datatype Exec = ExecFailed | Started(pid: nat, k: Kernel)

  /**
   * The four bytes execute checks for the magic: what read_data, as written, put
   * over the stale buffer. `outside` is memory beyond the image's data blocks.
   */
  function HeadBytes(fs: FileSystem.Image, ino: Word, stale: seq<Byte>, outside: int -> Byte): (b: seq<Byte>)
    requires FileSystem.ImageValid(fs) && |stale| == 4
    ensures |b| == 4
  {
    Elf.Fill(stale, FileSystem.AsWrittenRead(fs, ino, 0, false, 4, outside).bytes)
  }

  /**
   * The entry point execute takes from bytes 24..27, read by read_data as written
   * over the buffer that held the magic. For a file shorter than 24 bytes the
   * unsigned remaining length wraps, so four bytes are copied from past its end.
   */
  function EntryPoint(fs: FileSystem.Image, ino: Word, head: seq<Byte>, outside: int -> Byte): Word
    requires FileSystem.ImageValid(fs) && |head| == 4
  {
    Elf.Le32(Elf.Fill(head, FileSystem.AsWrittenRead(fs, ino, Elf.ENTRY_OFFSET, false, 4, outside).bytes))
  }

  /**
   * execute: parse the command, look the name up, check the magic, read the
   * entry point, take the lowest free pid and enter the program. `stale` is
   * what the uninitialised 4-byte buffer held before the first read.
   */
  function Execute(k: Kernel, cmd: Option<CString>, stale: seq<Byte>, outside: int -> Byte): (r: Exec)
    requires Valid(k) && |stale| == 4
    ensures r.Started? ==> Valid(r.k) && r.pid < MAX_PROCS
  {
    match Command.ParseCommand(cmd)
    case None => ExecFailed
    case Some(p) =>
      match FileSystem.ReadDentryByName(k.fs, Some(p.name), false)
      case None => ExecFailed
      case Some(d) =>
        var ino := U32(d.inode);
        var head := HeadBytes(k.fs, ino, stale, outside);
        if !Elf.HasMagic(head) then ExecFailed
        else
          var pid := AllocatePid(k.procs);
          if pid < 0 then ExecFailed
          else Started(pid, Enter(k, pid, d.inode, p.args, EntryPoint(k.fs, ino, head, outside)))
  }

  /**
   * What execute does once it has a pid: mark it used, map its program page
   * and load the file into it, count the process, set up its PCB (pid, parent,
   * arguments, descriptors, the caller's stack and frame pointers), make it
   * current, point the TSS at its kernel stack, and enter it in user mode.
   */
  function Enter(k: Kernel, pid: int, inode: int, args: CString, entry: Word): (k': Kernel)
    requires Valid(k) && 0 <= pid < MAX_PROCS && k.procs[pid] == 0
    ensures Valid(k')
    ensures k'.procs == k.procs[pid := 1] && k'.numProcs == k.numProcs + 1
    ensures k'.curr == Some(pid)
    ensures k'.pcbs == k.pcbs[pid := k.pcbs[pid].(fds := InitialFds(inode), parent := k.curr, args := args,
                                                    parentSaved := k.cpu)]
    ensures k'.pcbs[pid].parent == k.curr && k'.pcbs[pid].args == args && k'.pcbs[pid].fds == InitialFds(inode)
    ensures k'.tss == Tss(KernelData, KernelStackTop(pid))
    ensures k'.tables == Paging.AddProgramPage(k.tables, UserPage(pid), 1)
    ensures k'.mode == UserMode(entry, NEW_ESP) && k'.cpu == k.cpu
    ensures k'.fs == k.fs && k'.dirCursor == k.dirCursor && k'.clock == k.clock && k'.desk == k.desk
    ensures k'.terminalPcbs == k.terminalPcbs && k'.pitTicks == k.pitTicks
  {
    CountUsedUpdate(k.procs, pid, 1);
    var pcb := k.pcbs[pid].(fds := InitialFds(inode), pid := pid, parent := k.curr, args := args,
                            parentSaved := k.cpu);
    var image := FileSystem.ReadData(k.fs, U32(inode), 0, false, FOUR_MB).bytes;
    k.(procs := k.procs[pid := 1],
       tables := Paging.AddProgramPage(k.tables, UserPage(pid), 1),
       images := k.images[pid := image],
       numProcs := k.numProcs + 1,
       pcbs := k.pcbs[pid := pcb],
       curr := Some(pid),
       tss := Tss(KernelData, KernelStackTop(pid)),
       mode := UserMode(entry, NEW_ESP))
  }

  /**
   * execute fails, before any pid is taken, for a NULL command, a name over 32
   * characters, a name not in the directory, a file whose first four bytes are
   * not the magic, and when all six pids are in use.
   */
  lemma ExecuteFailures(k: Kernel, cmd: Option<CString>, stale: seq<Byte>, outside: int -> Byte)
    requires Valid(k) && |stale| == 4
    ensures cmd.None? ==> Execute(k, cmd, stale, outside) == ExecFailed
    ensures Command.ParseCommand(cmd).None? ==> Execute(k, cmd, stale, outside) == ExecFailed
    ensures Command.ParseCommand(cmd).Some?
            && FileSystem.ReadDentryByName(k.fs, Some(Command.ParseCommand(cmd).value.name), false).None?
            ==> Execute(k, cmd, stale, outside) == ExecFailed
    ensures (forall j :: 0 <= j < MAX_PROCS ==> k.procs[j] != 0) ==> Execute(k, cmd, stale, outside) == ExecFailed
  {
  }

  /**
   * A file of at least four bytes is started exactly when it begins with the
   * magic and a pid is free, and then on the lowest free pid.
   */
  lemma ExecuteStartsElf(k: Kernel, cmd: Option<CString>, stale: seq<Byte>, outside: int -> Byte)
    requires Valid(k) && |stale| == 4
    requires Command.ParseCommand(cmd).Some?
    requires FileSystem.ReadDentryByName(k.fs, Some(Command.ParseCommand(cmd).value.name), false).Some?
    ensures var ino := U32(FileSystem.ReadDentryByName(k.fs, Some(Command.ParseCommand(cmd).value.name), false).value.inode);
      ino < k.fs.numInodes && |FileSystem.FileContent(k.fs, ino)| >= 4 ==>
        var r := Execute(k, cmd, stale, outside);
        (r.Started? <==> FileSystem.FileContent(k.fs, ino)[..4] == Elf.ELF_MAGIC && AllocatePid(k.procs) >= 0)
        && (r.Started? ==> r.pid == AllocatePid(k.procs))
  {
    var p := Command.ParseCommand(cmd).value;
    var d := FileSystem.ReadDentryByName(k.fs, Some(p.name), false).value;
    var ino := U32(d.inode);
    if ino < k.fs.numInodes && |FileSystem.FileContent(k.fs, ino)| >= 4 {
      HeadIsContent(k.fs, ino, stale, outside);
      Elf.HasMagicIsMagic(HeadBytes(k.fs, ino, stale, outside));
      ExecuteFoundFile(k, cmd, stale, outside);
    }
  }

  /**
   * A started program runs as a child of the caller with the parsed arguments
   * and only the terminal descriptors open, in user mode from the little-endian
   * word in its bytes 24..27 when it has at least 28 bytes.
   */
  lemma ExecuteEntersAtElfEntry(k: Kernel, cmd: Option<CString>, stale: seq<Byte>, outside: int -> Byte)
    requires Valid(k) && |stale| == 4
    requires Command.ParseCommand(cmd).Some?
    requires FileSystem.ReadDentryByName(k.fs, Some(Command.ParseCommand(cmd).value.name), false).Some?
    requires Execute(k, cmd, stale, outside).Started?
    ensures var p := Command.ParseCommand(cmd).value;
      var d := FileSystem.ReadDentryByName(k.fs, Some(p.name), false).value;
      var r := Execute(k, cmd, stale, outside);
      r.k.curr == Some(r.pid) && r.k.pcbs[r.pid].parent == k.curr && r.k.pcbs[r.pid].args == p.args
      && r.k.pcbs[r.pid].fds == InitialFds(d.inode)
      && (U32(d.inode) < k.fs.numInodes && |FileSystem.FileContent(k.fs, U32(d.inode))| >= 28 ==>
            r.k.mode == UserMode(Elf.Le32(FileSystem.FileContent(k.fs, U32(d.inode))[24..28]), NEW_ESP))
  {
    var p := Command.ParseCommand(cmd).value;
    var d := FileSystem.ReadDentryByName(k.fs, Some(p.name), false).value;
    var ino := U32(d.inode);
    var head := HeadBytes(k.fs, ino, stale, outside);
    var r := Execute(k, cmd, stale, outside);
    ExecuteFoundFile(k, cmd, stale, outside);
    var entry := EntryPoint(k.fs, ino, head, outside);
    assert r.k == Enter(k, r.pid, d.inode, p.args, entry);
    assert r.k.mode == UserMode(entry, NEW_ESP);
    if ino < k.fs.numInodes && |FileSystem.FileContent(k.fs, ino)| >= 28 {
      EntryIsContent(k.fs, ino, head, outside);
    }
  }

  /**
   * A started program shorter than 24 bytes runs in user mode from the word past
   * its end, at bytes 24..27 of the block its inode slot 0 names (its first data
   * block unless the file is empty, by SlotZeroInFirstBlock).
   */
  lemma ExecuteEntersPastShortFile(k: Kernel, cmd: Option<CString>, stale: seq<Byte>, outside: int -> Byte)
    requires Valid(k) && |stale| == 4
    requires Command.ParseCommand(cmd).Some?
    requires FileSystem.ReadDentryByName(k.fs, Some(Command.ParseCommand(cmd).value.name), false).Some?
    requires Execute(k, cmd, stale, outside).Started?
    ensures var d := FileSystem.ReadDentryByName(k.fs, Some(Command.ParseCommand(cmd).value.name), false).value;
      U32(d.inode) < k.fs.numInodes && k.fs.inodes[U32(d.inode)].length < Elf.ENTRY_OFFSET ==>
        Execute(k, cmd, stale, outside).k.mode
        == UserMode(Elf.Le32(SlotZeroEntryBytes(k.fs, U32(d.inode), outside)), NEW_ESP)
  {
    var p := Command.ParseCommand(cmd).value;
    var d := FileSystem.ReadDentryByName(k.fs, Some(p.name), false).value;
    var ino := U32(d.inode);
    var head := HeadBytes(k.fs, ino, stale, outside);
    ExecuteFoundFile(k, cmd, stale, outside);
    if ino < k.fs.numInodes && k.fs.inodes[ino].length < Elf.ENTRY_OFFSET {
      EntryBeyondShortFile(k.fs, ino, head, outside);
    }
  }

  /** execute once the name is found: the magic check and the free pid decide. */
  lemma ExecuteFoundFile(k: Kernel, cmd: Option<CString>, stale: seq<Byte>, outside: int -> Byte)
    requires Valid(k) && |stale| == 4
    requires Command.ParseCommand(cmd).Some?
    requires FileSystem.ReadDentryByName(k.fs, Some(Command.ParseCommand(cmd).value.name), false).Some?
    ensures var p := Command.ParseCommand(cmd).value;
      var d := FileSystem.ReadDentryByName(k.fs, Some(p.name), false).value;
      var head := HeadBytes(k.fs, U32(d.inode), stale, outside);
      var r := Execute(k, cmd, stale, outside);
      (r.Started? <==> Elf.HasMagic(head) && AllocatePid(k.procs) >= 0)
      && (r.Started? ==> r.pid == AllocatePid(k.procs)
                         && r.k == Enter(k, r.pid, d.inode, p.args, EntryPoint(k.fs, U32(d.inode), head, outside)))
  {
  }

  /** A file of four bytes or more fills the whole magic buffer with its first four. */
  lemma HeadIsContent(fs: FileSystem.Image, ino: Word, stale: seq<Byte>, outside: int -> Byte)
    requires FileSystem.ImageValid(fs) && |stale| == 4 && ino < fs.numInodes
    requires |FileSystem.FileContent(fs, ino)| >= 4
    ensures HeadBytes(fs, ino, stale, outside) == FileSystem.FileContent(fs, ino)[..4]
  {
    FileSystem.AsWrittenReadAgrees(fs, ino, 0, false, 4, outside);
    var first := FileSystem.ReadData(fs, ino, 0, false, 4);
    assert first.bytes == FileSystem.FileContent(fs, ino)[0..4];
  }

  /** A file of 28 bytes or more yields the little-endian word at offset 24 as entry point. */
  lemma EntryIsContent(fs: FileSystem.Image, ino: Word, head: seq<Byte>, outside: int -> Byte)
    requires FileSystem.ImageValid(fs) && |head| == 4 && ino < fs.numInodes
    requires |FileSystem.FileContent(fs, ino)| >= 28
    ensures EntryPoint(fs, ino, head, outside) == Elf.Le32(FileSystem.FileContent(fs, ino)[24..28])
  {
    FileSystem.AsWrittenReadAgrees(fs, ino, Elf.ENTRY_OFFSET, false, 4, outside);
    var second := FileSystem.ReadData(fs, ino, Elf.ENTRY_OFFSET, false, 4);
    assert second.bytes == FileSystem.FileContent(fs, ino)[24..28];
  }

  /**
   * The magic check looks at the buffer, not at how many bytes the read
   * returned: an empty file passes when the uninitialised buffer happens to hold
   * the magic.
   */
  lemma EmptyFilePassesOnStaleMagic(fs: FileSystem.Image, ino: Word, outside: int -> Byte)
    requires FileSystem.ImageValid(fs) && ino < fs.numInodes && fs.inodes[ino].length == 0
    ensures Elf.HasMagic(HeadBytes(fs, ino, Elf.ELF_MAGIC, outside))
  {
    assert FileSystem.FileContent(fs, ino) == [];
  }

  /**
   * A file of 24 to 27 bytes fills the front of the entry buffer with its bytes
   * from 24 on, and the rest keeps what the magic read left there.
   */
  lemma EntryOfPartialHeader(fs: FileSystem.Image, ino: Word, head: seq<Byte>, outside: int -> Byte)
    requires FileSystem.ImageValid(fs) && |head| == 4 && ino < fs.numInodes
    requires Elf.ENTRY_OFFSET <= fs.inodes[ino].length < Elf.ENTRY_OFFSET + 4
    ensures var content := FileSystem.FileContent(fs, ino);
      EntryPoint(fs, ino, head, outside) == Elf.Le32(content[24..] + head[|content| - 24..])
  {
    var content := FileSystem.FileContent(fs, ino);
    FileSystem.AsWrittenReadAgrees(fs, ino, Elf.ENTRY_OFFSET, false, 4, outside);
    var second := FileSystem.ReadData(fs, ino, Elf.ENTRY_OFFSET, false, 4);
    assert second.bytes == content[24..];
  }

  /** The four bytes of memory at bytes 24..27 of the block inode slot 0 names. */
  function SlotZeroEntryBytes(fs: FileSystem.Image, ino: Word, outside: int -> Byte): (b: seq<Byte>)
    requires FileSystem.Shaped(fs) && ino < fs.numInodes
    ensures |b| == 4
  {
    var base := (fs.numInodes + 1 + fs.inodes[ino].dblocks[0]) * FileSystem.BLOCK_SIZE + Elf.ENTRY_OFFSET;
    [FileSystem.MemByte(fs, outside, base), FileSystem.MemByte(fs, outside, base + 1),
     FileSystem.MemByte(fs, outside, base + 2), FileSystem.MemByte(fs, outside, base + 3)]
  }

  /**
   * A file shorter than 24 bytes still yields four entry bytes: the remaining
   * length wraps, and read_data copies bytes 24..27 of the block that inode slot
   * 0 names, which for a non-empty file is its first data block.
   */
  lemma EntryBeyondShortFile(fs: FileSystem.Image, ino: Word, head: seq<Byte>, outside: int -> Byte)
    requires FileSystem.ImageValid(fs) && |head| == 4 && ino < fs.numInodes
    requires fs.inodes[ino].length < Elf.ENTRY_OFFSET
    ensures EntryPoint(fs, ino, head, outside) == Elf.Le32(SlotZeroEntryBytes(fs, ino, outside))
    ensures fs.inodes[ino].length > 0 ==>
      0 <= fs.inodes[ino].dblocks[0] < fs.numDataBlocks
      && EntryPoint(fs, ino, head, outside) == Elf.Le32(fs.blocks[fs.inodes[ino].dblocks[0]][24..28])
  {
    var f := fs.inodes[ino];
    assert FileSystem.FileWellFormed(fs, ino);
    U32OfNegative(f.length - Elf.ENTRY_OFFSET);
    var r := FileSystem.AsWrittenRead(fs, ino, Elf.ENTRY_OFFSET, false, 4, outside);
    var base := (fs.numInodes + 1 + f.dblocks[0]) * FileSystem.BLOCK_SIZE + Elf.ENTRY_OFFSET;
    assert r.count == 4;
    forall k | 0 <= k < 4
      ensures r.bytes[k] == SlotZeroEntryBytes(fs, ino, outside)[k]
    {
      assert FileSystem.AsWrittenLoc(fs, f, Elf.ENTRY_OFFSET, 4, k) == base + k;
    }
    if f.length > 0 {
      SlotZeroInFirstBlock(fs, ino, outside);
    }
  }

  /** For a non-empty file those four bytes are bytes 24..27 of its first data block. */
  lemma SlotZeroInFirstBlock(fs: FileSystem.Image, ino: Word, outside: int -> Byte)
    requires FileSystem.ImageValid(fs) && ino < fs.numInodes && fs.inodes[ino].length > 0
    ensures 0 <= fs.inodes[ino].dblocks[0] < fs.numDataBlocks
    ensures SlotZeroEntryBytes(fs, ino, outside) == fs.blocks[fs.inodes[ino].dblocks[0]][24..28]
  {
    var f := fs.inodes[ino];
    assert FileSystem.FileWellFormed(fs, ino);
    assert FileSystem.BlocksOf(f.length) >= 1;
    forall k | 0 <= k < 4
      ensures SlotZeroEntryBytes(fs, ino, outside)[k] == fs.blocks[f.dblocks[0]][24 + k]
    {
      FileSystem.DivModBlock(fs.numInodes + 1 + f.dblocks[0], 24 + k);
    }
  }

  // ---------------------------------------------------------------------------
  // close and open

  /** Result of a call that changes the kernel state: the return value and the new state. */
  datatype Outcome = Outcome(rc: int, k: Kernel)

  /**
   * close: -1 for descriptors 0 and 1, one past 7 or one not in use, and when
   * the bound close operation fails (only the null operations do); otherwise
   * that close operation runs and the descriptor is marked free.
   */
  function SystemClose(k: Kernel, fd: int): (r: Outcome)
    requires Valid(k) && k.curr.Some?
    ensures Valid(r.k) && r.k.curr == k.curr
    ensures r.k.(pcbs := k.pcbs, clock := k.clock, dirCursor := k.dirCursor) == k
    ensures forall p :: 0 <= p < MAX_PROCS && p != k.curr.value ==> r.k.pcbs[p] == k.pcbs[p]
    ensures r.k.pcbs[k.curr.value] == k.pcbs[k.curr.value].(fds := CurrFds(r.k))
    ensures fd < 2 || fd >= MAX_FDS ==> r == Outcome(-1, k)
    ensures 2 <= fd < MAX_FDS && (!CurrFds(k)[fd].inUse || CurrFds(k)[fd].ops == NullOps) ==> r == Outcome(-1, k)
    ensures 2 <= fd < MAX_FDS && CurrFds(k)[fd].inUse && CurrFds(k)[fd].ops != NullOps ==>
      r.rc == 0 && CurrFds(r.k) == CurrFds(k)[fd := CurrFds(k)[fd].(inUse := false)]
  {
    if fd < 2 || fd >= MAX_FDS then Outcome(-1, k)
    else
      var e := CurrFds(k)[fd];
      if !e.inUse then Outcome(-1, k)
      else match e.ops
        case NullOps =>
          assert NullClose(fd) < 0;
          Outcome(-1, k)
        case FileOps =>
          var closed := FileSystem.FileClose(e);
          Outcome(0, SetFd(k, fd, closed.1.(inUse := false)))
        case DirOps =>
          var closed := FileSystem.DirClose(fd, e, k.dirCursor);
          Outcome(0, SetFd(k.(dirCursor := closed.2), fd, closed.1.(inUse := false)))
        case RtcOps =>
          var closed := Rtc.RtcClose(k.clock);
          Outcome(0, SetFd(k.(clock := closed.1), fd, e.(inUse := false)))
        case StdinOps =>
          Outcome(0, SetFd(k, fd, e.(inUse := false)))
        case StdoutOps =>
          Outcome(0, SetFd(k, fd, e.(inUse := false)))
  }

  /** The null operations fail for every argument. */
  lemma NullOpsAlwaysFail(fd: int, nbytes: int, name: Option<CString>)
    ensures NullRead(fd, nbytes) < 0 && NullWrite(fd, nbytes) < 0
    ensures NullOpen(name) < 0 && NullClose(fd) < 0
  {
  }

  /** A descriptor bound to the null operations can never be closed: close fails and changes nothing. */
  lemma NullBoundFdStaysOpen(k: Kernel, fd: int)
    requires Valid(k) && k.curr.Some? && 0 <= fd < MAX_FDS && CurrFds(k)[fd].ops == NullOps
    ensures SystemClose(k, fd) == Outcome(-1, k)
  {
  }

  /** The lowest descriptor from i on (i >= 2) that is not in use, or 8 when there is none. */
  function FirstFreeFd(fds: seq<FdEntry>, i: nat): (r: nat)
    requires |fds| == MAX_FDS && i <= MAX_FDS
    ensures i <= r <= MAX_FDS
    ensures r < MAX_FDS ==> !fds[r].inUse
    ensures forall j :: i <= j < r ==> fds[j].inUse
    decreases MAX_FDS - i
  {
    if i == MAX_FDS then MAX_FDS
    else if !fds[i].inUse then i
    else FirstFreeFd(fds, i + 1)
  }

  /** The operations a file type binds, and whether opening it succeeds. */
  function OpsFor(fileType: int): Option<Fops>
  {
    if fileType == FileSystem.FT_RTC then Some(RtcOps)
    else if fileType == FileSystem.FT_DIR then Some(DirOps)
    else if fileType == FileSystem.FT_REG then Some(FileOps)
    else None
  }

  /**
   * open: -1 when the name is not found or descriptors 2..7 are all in use;
   * otherwise the lowest free one is marked in use and given the entry's inode
   * and position 0, and the open operation for the file type runs and binds its
   * operations. For an unknown file type the call returns -1 with the
   * descriptor still marked in use.
   */
  function SystemOpen(k: Kernel, fname: Option<CString>): (r: Outcome)
    requires Valid(k) && k.curr.Some?
    ensures Valid(r.k) && r.k.curr == k.curr
    ensures r.k.(pcbs := k.pcbs, clock := k.clock, dirCursor := k.dirCursor) == k
    ensures forall p :: 0 <= p < MAX_PROCS && p != k.curr.value ==> r.k.pcbs[p] == k.pcbs[p]
    ensures r.k.pcbs[k.curr.value] == k.pcbs[k.curr.value].(fds := CurrFds(r.k))
    ensures FileSystem.ReadDentryByName(k.fs, fname, false).None? ==> r == Outcome(-1, k)
    ensures FirstFreeFd(CurrFds(k), 2) == MAX_FDS ==> r == Outcome(-1, k)
    ensures r.rc >= 0 <==>
      (FileSystem.ReadDentryByName(k.fs, fname, false).Some? && FirstFreeFd(CurrFds(k), 2) < MAX_FDS
       && OpsFor(FileSystem.ReadDentryByName(k.fs, fname, false).value.fileType).Some?)
    ensures r.rc >= 0 ==>
      var d := FileSystem.ReadDentryByName(k.fs, fname, false).value;
      r.rc == FirstFreeFd(CurrFds(k), 2) < MAX_FDS && OpsFor(d.fileType).Some?
      && CurrFds(r.k) == CurrFds(k)[r.rc := FdEntry(OpsFor(d.fileType).value, d.inode, 0, true)]
  {
    match FileSystem.ReadDentryByName(k.fs, fname, false)
    case None => Outcome(-1, k)
    case Some(d) =>
      var i := FirstFreeFd(CurrFds(k), 2);
      if i == MAX_FDS then Outcome(-1, k)
      else
        // file_open looks the same name up again, so it cannot fail here
        assert FileSystem.FileOpen(k.fs, fname) == 0;
        OpenFd(k, i, d, fname)
  }

  /** open on the free descriptor i for the found entry d: mark it, initialise it, bind it. */
  function OpenFd(k: Kernel, i: int, d: FileSystem.Dentry, fname: Option<CString>): (r: Outcome)
    requires Valid(k) && k.curr.Some? && 0 <= i < MAX_FDS
    ensures Valid(r.k) && r.k.curr == k.curr
    ensures r.k.(pcbs := k.pcbs, clock := k.clock, dirCursor := k.dirCursor) == k
    ensures forall p :: 0 <= p < MAX_PROCS && p != k.curr.value ==> r.k.pcbs[p] == k.pcbs[p]
    ensures r.k.pcbs[k.curr.value] == k.pcbs[k.curr.value].(fds := CurrFds(r.k))
    ensures r.rc >= 0 ==>
      r.rc == i && OpsFor(d.fileType).Some?
      && CurrFds(r.k) == CurrFds(k)[i := FdEntry(OpsFor(d.fileType).value, d.inode, 0, true)]
    ensures r.rc < 0 ==> r.rc == -1 && CurrFds(r.k)[i].inUse
    ensures r.rc >= 0 <==> OpsFor(d.fileType).Some?
  {
    var marked := SetFd(k, i, CurrFds(k)[i].(inUse := true, inode := d.inode, position := 0));
    BindOpened(marked, i, d.fileType, fname)
  }

  /**
   * The second half of open, on descriptor i already marked in use: the open
   * operation for the file type runs and binds its operations, or the call
   * fails with the descriptor left as it is. rtc_open and dir_open always
   * succeed, and file_open does for a name open has already found.
   */
  function BindOpened(k: Kernel, i: int, fileType: int, fname: Option<CString>): (r: Outcome)
    requires Valid(k) && k.curr.Some? && 0 <= i < MAX_FDS
    ensures Valid(r.k) && r.k.curr == k.curr
    ensures r.k.(pcbs := k.pcbs, clock := k.clock, dirCursor := k.dirCursor) == k
    ensures forall p :: 0 <= p < MAX_PROCS && p != k.curr.value ==> r.k.pcbs[p] == k.pcbs[p]
    ensures r.k.pcbs[k.curr.value] == k.pcbs[k.curr.value].(fds := CurrFds(r.k))
    ensures OpsFor(fileType).None? ==> r == Outcome(-1, k)
    ensures OpsFor(fileType).Some? ==>
      r.rc == i && CurrFds(r.k) == CurrFds(k)[i := CurrFds(k)[i].(ops := OpsFor(fileType).value)]
  {
    var e := CurrFds(k)[i];
    if fileType == FileSystem.FT_RTC then
      var openRes := Rtc.RtcOpen(k.clock);
      Outcome(i, SetFd(k.(clock := openRes.1), i, e.(ops := RtcOps)))
    else if fileType == FileSystem.FT_DIR then
      var openRes := FileSystem.DirOpen(fname, k.dirCursor);
      Outcome(i, SetFd(k.(dirCursor := openRes.1), i, e.(ops := DirOps)))
    else if fileType == FileSystem.FT_REG then
      Outcome(i, SetFd(k, i, e.(ops := FileOps)))
    else Outcome(-1, k)
  }

  /** An entry of unknown type makes open fail, yet the descriptor it took stays marked in use. */
  lemma FailedOpenLeaksFd(k: Kernel, fname: Option<CString>)
    requires Valid(k) && k.curr.Some?
    requires FileSystem.ReadDentryByName(k.fs, fname, false).Some?
    requires OpsFor(FileSystem.ReadDentryByName(k.fs, fname, false).value.fileType).None?
    requires FirstFreeFd(CurrFds(k), 2) < MAX_FDS
    ensures var r := SystemOpen(k, fname);
      r.rc == -1 && CurrFds(r.k)[FirstFreeFd(CurrFds(k), 2)].inUse
  {
  }

  /** Closing what open returned frees it again: the next open of the same name gets the same descriptor. */
  lemma OpenCloseReopen(k: Kernel, fname: Option<CString>)
    requires Valid(k) && k.curr.Some?
    requires SystemOpen(k, fname).rc >= 0
    ensures var o := SystemOpen(k, fname);
      var c := SystemClose(o.k, o.rc);
      c.rc == 0 && !CurrFds(c.k)[o.rc].inUse && SystemOpen(c.k, fname).rc == o.rc
  {
    var o := SystemOpen(k, fname);
    var i := o.rc;
    var d := FileSystem.ReadDentryByName(k.fs, fname, false).value;
    assert CurrFds(o.k)[i] == FdEntry(OpsFor(d.fileType).value, d.inode, 0, true);
    var c := SystemClose(o.k, i);
    assert c.rc == 0 && c.k.fs == k.fs;
    assert CurrFds(c.k) == CurrFds(k)[i := CurrFds(o.k)[i].(inUse := false)];
    assert forall j :: 2 <= j < i ==> CurrFds(c.k)[j] == CurrFds(k)[j];
    OpenAtFirstFree(c.k, fname, i);
  }

  /** open of a name with a known file type returns the first free descriptor from 2 on. */
  lemma OpenAtFirstFree(k: Kernel, fname: Option<CString>, i: nat)
    requires Valid(k) && k.curr.Some? && 2 <= i < MAX_FDS && !CurrFds(k)[i].inUse
    requires forall j :: 2 <= j < i ==> CurrFds(k)[j].inUse
    requires FileSystem.ReadDentryByName(k.fs, fname, false).Some?
    requires OpsFor(FileSystem.ReadDentryByName(k.fs, fname, false).value.fileType).Some?
    ensures SystemOpen(k, fname).rc == i
  {
    FirstFreeFdAt(CurrFds(k), 2, i);
  }

  /** If every descriptor from `from` up to `i` is in use and `i` is not, the search stops at `i`. */
  lemma {:induction false} FirstFreeFdAt(fds: seq<FdEntry>, from: nat, i: nat)
    requires |fds| == MAX_FDS && from <= i < MAX_FDS && !fds[i].inUse
    requires forall j :: from <= j < i ==> fds[j].inUse
    ensures FirstFreeFd(fds, from) == i
    decreases i - from
  {
    if from < i {
      FirstFreeFdAt(fds, from + 1, i);
    }
  }

  // ---------------------------------------------------------------------------
  // read and write

  /** Result of read or write: the return value, bytes or characters moved, and the new state. */
  datatype Transfer = Transfer(rc: int, bytes: seq<Byte>, text: seq<char>, k: Kernel)

  /**
   * The waits read makes before it returns: a terminal read waits for a
   * completed line and a clock read for an interrupt. A file read needs its
   * position's block slot within the inode, which read_data reads first.
   */
  predicate ReadReady(k: Kernel, fd: int, bufNull: bool, nbytes: int)
    requires Valid(k) && k.curr.Some?
  {
    0 <= fd < MAX_FDS && CurrFds(k)[fd].inUse ==>
      (CurrFds(k)[fd].ops == StdinOps && !bufNull && nbytes >= 0 ==> k.desk.keys.termFlag)
      && (CurrFds(k)[fd].ops == RtcOps ==> k.clock.interrupt)
      && (CurrFds(k)[fd].ops == FileOps && !bufNull && U32(CurrFds(k)[fd].inode) < k.fs.numInodes
          ==> U32(CurrFds(k)[fd].position) / FileSystem.BLOCK_SIZE < FileSystem.DBLOCKS_PER_INODE)
  }

  /**
   * read: -1 for a descriptor outside 0..7 or not in use; otherwise the bound
   * read operation. The terminal, clock, directory and file reads are modelled,
   * the file read as the source calls read_data; the output-only and null
   * tables fail. `outside` is memory beyond the image's data blocks.
   */
  function SystemRead(k: Kernel, fd: int, bufNull: bool, nbytes: int, outside: int -> Byte): (r: Transfer)
    requires Valid(k) && k.curr.Some? && ReadReady(k, fd, bufNull, nbytes)
    ensures Valid(r.k) && r.k.curr == k.curr
    ensures fd < 0 || fd >= MAX_FDS ==> r == Transfer(-1, [], [], k)
    ensures 0 <= fd < MAX_FDS && !CurrFds(k)[fd].inUse ==> r == Transfer(-1, [], [], k)
    ensures 0 <= fd < MAX_FDS && CurrFds(k)[fd].inUse && CurrFds(k)[fd].ops in {StdoutOps, NullOps}
            ==> r == Transfer(-1, [], [], k)
    ensures 0 <= fd < MAX_FDS && CurrFds(k)[fd].inUse && CurrFds(k)[fd].ops == FileOps ==>
      var f := FileSystem.FileReadAsWritten(k.fs, CurrFds(k)[fd], bufNull, nbytes, outside);
      r.rc == f.count && r.bytes == f.bytes && CurrFds(r.k) == CurrFds(k)[fd := f.fd]
    ensures 0 <= fd < MAX_FDS && CurrFds(k)[fd].inUse && CurrFds(k)[fd].ops == StdinOps ==>
      var t := Keyboard.TerminalRead(k.desk.keys, bufNull, nbytes);
      r.rc == t.0 && r.text == t.1 && r.k == k.(desk := k.desk.(keys := t.2))
    ensures 0 <= fd < MAX_FDS && CurrFds(k)[fd].inUse && CurrFds(k)[fd].ops == RtcOps ==>
      r.rc == 0 && r.k == k.(clock := Rtc.RtcRead(k.clock).1)
    ensures 0 <= fd < MAX_FDS && CurrFds(k)[fd].inUse && CurrFds(k)[fd].ops == DirOps ==>
      var d := FileSystem.DirRead(k.fs, k.dirCursor, fd, CurrFds(k)[fd], bufNull, nbytes);
      r.rc == d.count && r.text == d.written && r.k.dirCursor == d.cursor
      && CurrFds(r.k) == CurrFds(k)[fd := d.fd]
  {
    if fd < 0 || fd >= MAX_FDS then Transfer(-1, [], [], k)
    else
      var e := CurrFds(k)[fd];
      if !e.inUse then Transfer(-1, [], [], k)
      else match e.ops
        case StdinOps =>
          var t := Keyboard.TerminalRead(k.desk.keys, bufNull, nbytes);
          Transfer(t.0, [], t.1, k.(desk := k.desk.(keys := t.2)))
        case StdoutOps => Transfer(NullRead(fd, nbytes), [], [], k)
        case NullOps => Transfer(NullRead(fd, nbytes), [], [], k)
        case RtcOps =>
          var c := Rtc.RtcRead(k.clock);
          Transfer(c.0, [], [], k.(clock := c.1))
        case DirOps =>
          var d := FileSystem.DirRead(k.fs, k.dirCursor, fd, e, bufNull, nbytes);
          Transfer(d.count, [], d.written, SetFd(k.(dirCursor := d.cursor), fd, d.fd))
        case FileOps =>
          var f := FileSystem.FileReadAsWritten(k.fs, e, bufNull, nbytes, outside);
          Transfer(f.count, f.bytes, [], SetFd(k, fd, f.fd))
  }

  /** The C string at the start of a buffer: its bytes up to the first NUL, as characters. */
  function BufferText(buf: seq<Byte>): (s: CString)
    ensures |s| <= |buf|
    ensures forall j :: 0 <= j < |s| ==> s[j] == buf[j] as char
    ensures |s| < |buf| ==> buf[|s|] == 0
  {
    if buf == [] || buf[0] == 0 then [] else [buf[0] as char] + BufferText(buf[1..])
  }

  /** The int32_t at the start of a buffer, or None when the buffer is NULL or shorter than four bytes. */
  function BufferInt(buf: Option<seq<Byte>>): (v: Option<int>)
    ensures v.Some? ==> -0x8000_0000 <= v.value < 0x8000_0000
  {
    if buf.None? || |buf.value| < 4 then None
    else
      var w := Elf.Le32(buf.value[..4]);
      Some(if w >= 0x8000_0000 then w - TWO_POW_32 else w)
  }

  /**
   * write, given the frequency the clock's write operation receives: -1 for a
   * descriptor outside 0..7 or not in use; otherwise the bound write operation.
   * Only the terminal and the clock accept writes.
   */
  function WriteDispatch(k: Kernel, fd: int, buf: Option<seq<Byte>>, nbytes: int, rtcFreq: int): (r: Transfer)
    requires Valid(k) && k.curr.Some?
    ensures Valid(r.k) && r.k.curr == k.curr && r.bytes == []
    ensures fd < 0 || fd >= MAX_FDS ==> r == Transfer(-1, [], [], k)
    ensures 0 <= fd < MAX_FDS && !CurrFds(k)[fd].inUse ==> r == Transfer(-1, [], [], k)
    ensures 0 <= fd < MAX_FDS && CurrFds(k)[fd].inUse && CurrFds(k)[fd].ops in {StdinOps, DirOps, FileOps, NullOps}
            ==> r == Transfer(-1, [], [], k)
    ensures 0 <= fd < MAX_FDS && CurrFds(k)[fd].inUse && CurrFds(k)[fd].ops == StdoutOps ==>
      var shown := Keyboard.TerminalWrite(if buf.None? then None else Some(BufferText(buf.value)), nbytes);
      r == Transfer(shown.0, [], shown.1, k)
    ensures 0 <= fd < MAX_FDS && CurrFds(k)[fd].inUse && CurrFds(k)[fd].ops == RtcOps ==>
      var w := Rtc.RtcWrite(k.clock, rtcFreq);
      r == Transfer(w.0, [], [], k.(clock := w.1))
  {
    if fd < 0 || fd >= MAX_FDS then Transfer(-1, [], [], k)
    else
      var e := CurrFds(k)[fd];
      if !e.inUse then Transfer(-1, [], [], k)
      else match e.ops
        case StdinOps => Transfer(NullWrite(fd, nbytes), [], [], k)
        case StdoutOps =>
          var shown := Keyboard.TerminalWrite(if buf.None? then None else Some(BufferText(buf.value)), nbytes);
          Transfer(shown.0, [], shown.1, k)
        case RtcOps =>
          var w := Rtc.RtcWrite(k.clock, rtcFreq);
          Transfer(w.0, [], [], k.(clock := w.1))
        case DirOps => Transfer(FileSystem.DirWrite(fd, nbytes), [], [], k)
        case FileOps => Transfer(FileSystem.FileWrite(fd, nbytes), [], [], k)
        case NullOps => Transfer(NullWrite(fd, nbytes), [], [], k)
  }

  /**
   * write as the source does it: the clock's write operation takes a single
   * frequency argument but is called through the three-argument table entry, so
   * it receives the descriptor number as the frequency.
   */
  function SystemWriteAsWritten(k: Kernel, fd: int, buf: Option<seq<Byte>>, nbytes: int): (r: Transfer)
    requires Valid(k) && k.curr.Some?
    ensures Valid(r.k)
    ensures 0 <= fd < MAX_FDS && CurrFds(k)[fd].inUse && CurrFds(k)[fd].ops == RtcOps ==>
      (r.rc == 0 <==> fd in {0, 2, 4})
  {
    WriteDispatch(k, fd, buf, nbytes, fd)
  }

  /** A program asking an open clock on descriptor 3 for 1024 Hz gets -1, and nothing is programmed. */
  lemma RtcWriteReceivesDescriptor(k: Kernel, buf: seq<Byte>)
    requires Valid(k) && k.curr.Some? && CurrFds(k)[3].inUse && CurrFds(k)[3].ops == RtcOps
    requires |buf| == 4 && BufferInt(Some(buf)) == Some(1024)
    ensures SystemWriteAsWritten(k, 3, Some(buf), 4).rc == -1
    ensures SystemWriteAsWritten(k, 3, Some(buf), 4).k.clock == k.clock
    ensures SystemWrite(k, 3, Some(buf), 4).rc == 0
    ensures SystemWrite(k, 3, Some(buf), 4).k.clock.regA % 16 == 0x06
  {
  }

  /** write with the clock's frequency taken from the int32_t the buffer holds; -1 for a NULL or short buffer. */
  function SystemWrite(k: Kernel, fd: int, buf: Option<seq<Byte>>, nbytes: int): (r: Transfer)
    requires Valid(k) && k.curr.Some?
    ensures Valid(r.k)
    ensures 0 <= fd < MAX_FDS && CurrFds(k)[fd].inUse && CurrFds(k)[fd].ops == RtcOps ==>
      (r.rc == 0 <==> BufferInt(buf).Some? && Rtc.RateFor(BufferInt(buf).value).Some?)
  {
    match BufferInt(buf)
    case Some(freq) => WriteDispatch(k, fd, buf, nbytes, freq)
    case None =>
      if 0 <= fd < MAX_FDS && CurrFds(k)[fd].inUse && CurrFds(k)[fd].ops == RtcOps then Transfer(-1, [], [], k)
      else WriteDispatch(k, fd, buf, nbytes, -1)
  }

  // ---------------------------------------------------------------------------
  // halt

  /** A descriptor after halt: rebound to the null operations, still in use only if its close failed. */
  function Released(e: FdEntry, fd: int): FdEntry
  {
    e.(ops := NullOps, inUse := e.inUse && (fd < 2 || e.ops == NullOps))
  }

  /** Whether halt's close of descriptor fd actually closes something: it is in use, not 0 or 1, and not null-bound. */
  predicate Closes(e: FdEntry, fd: int)
  {
    e.inUse && fd >= 2 && e.ops != NullOps
  }

  /** No descriptor from `from` on is one halt actually closes. */
  predicate ClosesNone(fds: seq<FdEntry>, from: nat)
  {
    forall j :: from <= j < |fds| ==> !Closes(fds[j], j)
  }

  /** Halt's loop from descriptor i on: close it, then bind it to the null operations. */
  function CloseFrom(k: Kernel, i: nat): (k': Kernel)
    requires Valid(k) && k.curr.Some? && i <= MAX_FDS
    ensures Valid(k') && k'.curr == k.curr
    ensures k'.(pcbs := k.pcbs, clock := k.clock, dirCursor := k.dirCursor) == k
    ensures forall p :: 0 <= p < MAX_PROCS && p != k.curr.value ==> k'.pcbs[p] == k.pcbs[p]
    ensures k'.pcbs[k.curr.value] == k.pcbs[k.curr.value].(fds := CurrFds(k'))
    ensures forall j :: 0 <= j < i ==> CurrFds(k')[j] == CurrFds(k)[j]
    ensures forall j :: i <= j < MAX_FDS ==> CurrFds(k')[j] == Released(CurrFds(k)[j], j)
    ensures ClosesNone(CurrFds(k), i) ==> k'.clock == k.clock && k'.dirCursor == k.dirCursor
    decreases MAX_FDS - i
  {
    if i == MAX_FDS then k
    else CloseFrom(CloseOne(k, i), i + 1)
  }

  /** One round of halt's loop: descriptor i closed, then bound to the null operations. */
  function CloseOne(k: Kernel, i: nat): (k': Kernel)
    requires Valid(k) && k.curr.Some? && i < MAX_FDS
    ensures Valid(k') && k'.curr == k.curr
    ensures k'.(pcbs := k.pcbs, clock := k.clock, dirCursor := k.dirCursor) == k
    ensures forall p :: 0 <= p < MAX_PROCS && p != k.curr.value ==> k'.pcbs[p] == k.pcbs[p]
    ensures k'.pcbs[k.curr.value] == k.pcbs[k.curr.value].(fds := CurrFds(k'))
    ensures CurrFds(k') == CurrFds(k)[i := Released(CurrFds(k)[i], i)]
    ensures !Closes(CurrFds(k)[i], i) ==> k'.clock == k.clock && k'.dirCursor == k.dirCursor
  {
    var closed := SystemClose(k, i).k;
    SetFd(closed, i, CurrFds(closed)[i].(ops := NullOps))
  }

  /**
   * Halt's bookkeeping before it decides where to go: the descriptors closed
   * and rebound, the pid freed, the parent current and the count one lower.
   * Descriptors 0 and 1 stay in use because close refuses them; the others
   * are freed unless bound to the null operations. Nothing but the halting
   * PCB, the clock and the directory cursor changes, and those two only when a
   * descriptor actually closed.
   */
  function HaltBookkeeping(k: Kernel): (left: Kernel)
    requires Valid(k) && k.curr.Some? && k.procs[k.curr.value] != 0
    ensures Valid(left)
    ensures left.procs == k.procs[k.curr.value := 0] && left.numProcs == k.numProcs - 1
    ensures left.curr == k.pcbs[k.curr.value].parent
    ensures forall j :: 0 <= j < MAX_FDS ==> left.pcbs[k.curr.value].fds[j] == Released(CurrFds(k)[j], j)
    ensures forall p :: 0 <= p < MAX_PROCS && p != k.curr.value ==> left.pcbs[p] == k.pcbs[p]
    ensures left.pcbs[k.curr.value] == k.pcbs[k.curr.value].(fds := left.pcbs[k.curr.value].fds)
    ensures left.(pcbs := k.pcbs, clock := k.clock, dirCursor := k.dirCursor, procs := k.procs,
                  curr := k.curr, numProcs := k.numProcs) == k
    ensures ClosesNone(CurrFds(k), 0) ==> left.clock == k.clock && left.dirCursor == k.dirCursor
  {
    ReleasePid(CloseFrom(k, 0))
  }

  /** The halting process's pid given back, its parent made current, the count lowered. */
  function ReleasePid(k: Kernel): (left: Kernel)
    requires Valid(k) && k.curr.Some? && k.procs[k.curr.value] != 0
    ensures Valid(left)
    ensures left.procs == k.procs[k.curr.value := 0] && left.numProcs == k.numProcs - 1
    ensures left.curr == k.pcbs[k.curr.value].parent
    ensures left.(procs := k.procs, curr := k.curr, numProcs := k.numProcs) == k
    ensures left.pcbs == k.pcbs && left.clock == k.clock && left.dirCursor == k.dirCursor
  {
    var pcb := k.pcbs[k.curr.value];
    CountUsedUpdate(k.procs, pcb.pid, 0);
    k.(procs := k.procs[pcb.pid := 0], curr := pcb.parent, numProcs := k.numProcs - 1)
  }

  /** What halt leads to: the parent resumes with the status, a new shell, or no parent to return to. */
  datatype Halted = Returned(status: int, k: Kernel) | ShellRestart(k: Kernel) | NoParent(k: Kernel)

  /**
   * halt: after the bookkeeping, with no process left the shell is run again.
   * Otherwise the parent's program page and kernel stack come back and execute
   * returns the status in the parent, on the stack and frame pointers it saved;
   * a parent of NULL at that point is dereferenced.
   */
  function Halt(k: Kernel, status: Byte): (r: Halted)
    requires Valid(k) && k.curr.Some? && k.procs[k.curr.value] != 0
    ensures Valid(r.k)
    ensures r.ShellRestart? <==> k.numProcs == 1
    ensures r.NoParent? <==> k.numProcs != 1 && k.pcbs[k.curr.value].parent.None?
    ensures !r.Returned? ==> r.k == HaltBookkeeping(k)
    ensures r.Returned? ==>
      r.status == status
      && r.k == Resume(HaltBookkeeping(k), k.pcbs[k.curr.value].parent.value, k.pcbs[k.curr.value].parentSaved)
  {
    var c := k.curr.value;
    var left := HaltBookkeeping(k);
    assert k.numProcs >= 1 by {
      assert k.procs[c] != 0;
    }
    if left.numProcs == 0 then ShellRestart(left)
    else match k.pcbs[c].parent
      case None => NoParent(left)
      case Some(q) =>
        assert left.pcbs[q].pid == q;
        Returned(status, Resume(left, left.pcbs[q].pid, k.pcbs[c].parentSaved))
  }

  /**
   * Back in the parent: its program page mapped again, the TSS pointing at its
   * kernel stack, the stack and frame pointers it saved in use, in the kernel.
   * Nothing else changes.
   */
  function Resume(k: Kernel, q: nat, saved: Context): (k': Kernel)
    requires Valid(k) && q < MAX_PROCS
    ensures Valid(k')
    ensures k'.tables.dir[32] == Paging.Entry(UserPage(q), Paging.PROGRAM_FLAGS | Paging.PRESENT)
    ensures k'.tss == k.tss.(esp0 := KernelStackTop(q)) && k'.cpu == saved && k'.mode == KernelMode
    ensures k'.(tables := k.tables, tss := k.tss, cpu := k.cpu, mode := k.mode) == k
  {
    k.(tables := Paging.AddProgramPage(k.tables, UserPage(q), 1),
       tss := k.tss.(esp0 := KernelStackTop(q)), cpu := saved, mode := KernelMode)
  }

  /** halt cannot free descriptors 0 and 1: close rejects both. */
  lemma CloseRejectsStandardFds(k: Kernel)
    requires Valid(k) && k.curr.Some?
    ensures SystemClose(k, 0) == Outcome(-1, k) && SystemClose(k, 1) == Outcome(-1, k)
  {
  }

  /**
   * Halting the last process leaves every pid free, so the shell run next gets
   * pid 0 and, for the first shell, no parent.
   */
  lemma LastHaltFreesEveryPid(k: Kernel, status: Byte)
    requires Valid(k) && k.curr.Some? && k.procs[k.curr.value] != 0 && k.numProcs == 1
    ensures Halt(k, status).ShellRestart?
    ensures forall j :: 0 <= j < MAX_PROCS ==> Halt(k, status).k.procs[j] == 0
    ensures AllocatePid(Halt(k, status).k.procs) == 0
  {
    var h := Halt(k, status).k;
    assert CountUsed(h.procs) == 0;
  }

  /** The new process is live, has the caller as parent and only descriptors 0 and 1 open. */
  lemma StartedChild(k: Kernel, cmd: Option<CString>, stale: seq<Byte>, outside: int -> Byte)
    requires Valid(k) && |stale| == 4 && Execute(k, cmd, stale, outside).Started?
    ensures var e := Execute(k, cmd, stale, outside);
      e.k.curr == Some(e.pid) && k.procs[e.pid] == 0 && e.k.procs == k.procs[e.pid := 1]
      && e.k.numProcs == k.numProcs + 1
      && e.k.pcbs == k.pcbs[e.pid := e.k.pcbs[e.pid]]
      && e.k.pcbs[e.pid].parent == k.curr && e.k.pcbs[e.pid].parentSaved == k.cpu
      && (forall j :: 2 <= j < MAX_FDS ==> !e.k.pcbs[e.pid].fds[j].inUse)
      && e.k.(procs := k.procs, numProcs := k.numProcs, curr := k.curr, pcbs := k.pcbs, tss := k.tss,
              tables := k.tables, mode := k.mode, images := k.images) == k
  {
  }

  /**
   * execute and halt are inverse: a program started from a live process and
   * halted at once returns the status to that process, with its pid, count,
   * PCB, stack and frame pointers, program page and kernel stack as before.
   */
  lemma ExecuteThenHalt(k: Kernel, cmd: Option<CString>, stale: seq<Byte>, outside: int -> Byte, status: Byte)
    requires Valid(k) && |stale| == 4 && k.curr.Some? && k.procs[k.curr.value] != 0
    requires Execute(k, cmd, stale, outside).Started?
    ensures var e := Execute(k, cmd, stale, outside);
      e.k.procs[e.pid] != 0
      && var h := Halt(e.k, status);
      h.Returned? && h.status == status
      && h.k.procs == k.procs && h.k.numProcs == k.numProcs && h.k.curr == k.curr
      && h.k.cpu == k.cpu && h.k.mode == KernelMode
      && h.k.tss.esp0 == KernelStackTop(k.curr.value)
      && h.k.tables.dir[32] == Paging.Entry(UserPage(k.curr.value), Paging.PROGRAM_FLAGS | Paging.PRESENT)
      && h.k.pcbs[k.curr.value] == k.pcbs[k.curr.value]
      && h.k.clock == k.clock && h.k.dirCursor == k.dirCursor
  {
    var e := Execute(k, cmd, stale, outside);
    StartedChild(k, cmd, stale, outside);
    HaltUndoesStart(k, e.pid, e.k, status);
  }

  /** The halt half of ExecuteThenHalt, for any state a start can lead to. */
  lemma HaltUndoesStart(k: Kernel, pid: nat, child: Kernel, status: Byte)
    requires Valid(k) && k.curr.Some? && k.procs[k.curr.value] != 0 && Valid(child) && pid < MAX_PROCS
    requires child.curr == Some(pid) && k.procs[pid] == 0 && child.procs == k.procs[pid := 1]
    requires child.numProcs == k.numProcs + 1 && child.pcbs == k.pcbs[pid := child.pcbs[pid]]
    requires child.pcbs[pid].parent == k.curr && child.pcbs[pid].parentSaved == k.cpu
    requires forall j :: 2 <= j < MAX_FDS ==> !child.pcbs[pid].fds[j].inUse
    requires child.clock == k.clock && child.dirCursor == k.dirCursor
    ensures child.procs[pid] != 0
    ensures var h := Halt(child, status);
      h.Returned? && h.status == status
      && h.k.procs == k.procs && h.k.numProcs == k.numProcs && h.k.curr == k.curr
      && h.k.cpu == k.cpu && h.k.mode == KernelMode
      && h.k.tss.esp0 == KernelStackTop(k.curr.value)
      && h.k.tables.dir[32] == Paging.Entry(UserPage(k.curr.value), Paging.PROGRAM_FLAGS | Paging.PRESENT)
      && h.k.pcbs[k.curr.value] == k.pcbs[k.curr.value]
      && h.k.clock == k.clock && h.k.dirCursor == k.dirCursor
  {
    assert k.procs[pid := 1][pid := 0] == k.procs;
    assert k.numProcs >= 1 by {
      assert k.procs[k.curr.value] != 0;
    }
    HaltFreshChild(child, status);
  }

  /**
   * Halting a process that opened nothing beyond descriptors 0 and 1 changes
   * neither the clock nor the directory cursor, and returns to its parent when
   * another process is left.
   */
  lemma HaltFreshChild(k: Kernel, status: Byte)
    requires Valid(k) && k.curr.Some? && k.procs[k.curr.value] != 0 && k.numProcs >= 2
    requires k.pcbs[k.curr.value].parent.Some?
    requires forall j :: 2 <= j < MAX_FDS ==> !CurrFds(k)[j].inUse
    ensures var h := Halt(k, status);
      var q := k.pcbs[k.curr.value].parent.value;
      h.Returned? && h.status == status
      && h.k.procs == k.procs[k.curr.value := 0] && h.k.numProcs == k.numProcs - 1 && h.k.curr == Some(q)
      && h.k.cpu == k.pcbs[k.curr.value].parentSaved && h.k.mode == KernelMode
      && h.k.tss.esp0 == KernelStackTop(q)
      && h.k.tables.dir[32] == Paging.Entry(UserPage(q), Paging.PROGRAM_FLAGS | Paging.PRESENT)
      && (forall p :: 0 <= p < MAX_PROCS && p != k.curr.value ==> h.k.pcbs[p] == k.pcbs[p])
      && h.k.clock == k.clock && h.k.dirCursor == k.dirCursor
  {
    assert ClosesNone(CurrFds(k), 0);
  }

  // ---------------------------------------------------------------------------
  // calls that are not implemented

  /** getargs, vidmap, set_handler and sigreturn all return -1. */
  function GetArgs(bufNull: bool, nbytes: int): int { -1 }
  function Vidmap(screenStartNull: bool): int { -1 }
  function SetHandler(signum: int, handlerNull: bool): int { -1 }
  function SigReturn(): int { -1 }

  lemma UnimplementedCallsFail(bufNull: bool, nbytes: int, signum: int)
    ensures GetArgs(bufNull, nbytes) == -1 && Vidmap(bufNull) == -1
    ensures SetHandler(signum, bufNull) == -1 && SigReturn() == -1
  {
  }
}
