/**
 * Process bookkeeping shared by the system calls and the scheduler: file
 * descriptors and their operation tables, the process control block kept at the
 * top of each 8 KB kernel stack, where each pid's pages live, and pid allocation.
 */
module Process {
  import opened Common

  /** The six operation tables an fd can be bound to. */
  datatype Fops = StdinOps | StdoutOps | RtcOps | DirOps | FileOps | NullOps

  /** One file descriptor: its operations, inode, position in the file and in-use flag. */
  datatype FdEntry = FdEntry(ops: Fops, inode: int, position: int, inUse: bool)

  /** The state execute gives descriptors 2..7: null operations, inode -1, closed. */
  const UNUSED_FD: FdEntry := FdEntry(NullOps, -1, 0, false)

  /**
   * A process control block. `parent` is the block index of the parent's PCB
   * (None for NULL), `saved` the kernel stack and frame pointers stored by the
   * scheduler, `parentSaved` the ones execute stored for the return into the
   * parent, `termIndex` the terminal the process belongs to.
   */
  datatype Pcb = Pcb(
    fds: seq<FdEntry>,
    pid: int,
    parent: Option<nat>,
    args: seq<char>,
    termIndex: int,
    saved: Context,
    parentSaved: Context)

  /** Physical address of pid's 4 MB program page. */
  function UserPage(pid: int): (a: int)
    ensures 0 <= pid ==> EIGHT_MB <= a && a % FOUR_MB == 0
    ensures 0 <= pid < MAX_PROCS ==> a + FOUR_MB <= EIGHT_MB + MAX_PROCS * FOUR_MB
  {
    EIGHT_MB + pid * FOUR_MB
  }

  /** Address of pid's PCB: the bottom of the pid-th 8 KB block below 8 MB. */
  function PcbAddress(pid: int): (a: int)
    ensures 0 <= pid < MAX_PROCS ==> FOUR_MB <= a && a + EIGHT_KB <= EIGHT_MB
    ensures a % EIGHT_KB == 0
  {
    EIGHT_MB - (pid + 1) * EIGHT_KB
  }

  /** The kernel stack pointer the TSS gets for pid: the last word of pid's 8 KB block. */
  function KernelStackTop(pid: int): (a: int)
    ensures PcbAddress(pid) < a < PcbAddress(pid) + EIGHT_KB
  {
    EIGHT_MB - pid * EIGHT_KB - 4
  }

  /** Distinct pids get disjoint 4 MB program pages. */
  lemma UserPagesDisjoint(p: int, q: int)
    requires p != q
    ensures UserPage(p) + FOUR_MB <= UserPage(q) || UserPage(q) + FOUR_MB <= UserPage(p)
  {
  }

  /**
   * Distinct pids get disjoint PCB blocks inside the kernel's 4 MB page, and no
   * program page overlaps the kernel page.
   */
  lemma PcbBlocksDisjoint(p: int, q: int)
    requires 0 <= p < MAX_PROCS && 0 <= q < MAX_PROCS && p != q
    ensures PcbAddress(p) + EIGHT_KB <= PcbAddress(q) || PcbAddress(q) + EIGHT_KB <= PcbAddress(p)
    ensures PcbAddress(p) + EIGHT_KB <= UserPage(q)
  {
  }

  /** Index of the lowest free slot at or after `from`, or -1 when all are taken. */
  function LowestFree(procs: seq<int>, from: nat): (r: int)
    requires from <= |procs|
    ensures r == -1 || (from <= r < |procs| && procs[r] == 0)
    ensures r == -1 <==> (forall j :: from <= j < |procs| ==> procs[j] != 0)
    ensures r >= 0 ==> forall j :: from <= j < r ==> procs[j] != 0
    decreases |procs| - from
  {
    if from == |procs| then -1
    else if procs[from] == 0 then from
    else LowestFree(procs, from + 1)
  }

  /**
   * Pid allocation as execute does it: the lowest pid whose slot is 0, or -1 when
   * all six are in use.
   */
  function AllocatePid(procs: seq<int>): (pid: int)
    requires |procs| == MAX_PROCS
    ensures pid == -1 <==> (forall j :: 0 <= j < MAX_PROCS ==> procs[j] != 0)
    ensures pid != -1 ==> 0 <= pid < MAX_PROCS && procs[pid] == 0
    ensures pid != -1 ==> forall j :: 0 <= j < pid ==> procs[j] != 0
  {
    LowestFree(procs, 0)
  }

  /** A freed slot is handed out again once every lower slot is taken. */
  lemma FreedPidIsReused(procs: seq<int>, p: int)
    requires |procs| == MAX_PROCS && 0 <= p < MAX_PROCS
    requires forall j :: 0 <= j < p ==> procs[j] != 0
    ensures AllocatePid(procs[p := 0]) == p
  {
    var freed := procs[p := 0];
    assert freed[p] == 0;
    assert forall j :: 0 <= j < p ==> freed[j] != 0;
  }

  /** Number of slots in use. */
  function CountUsed(procs: seq<int>): (n: nat)
    ensures n <= |procs|
    ensures n == 0 <==> forall j :: 0 <= j < |procs| ==> procs[j] == 0
  {
    if procs == [] then 0
    else (if procs[|procs| - 1] != 0 then 1 else 0) + CountUsed(procs[..|procs| - 1])
  }

  /** Marking a free slot used adds one to the count; clearing a used slot removes one. */
  lemma {:induction false} CountUsedUpdate(procs: seq<int>, p: int, v: int)
    requires 0 <= p < |procs|
    ensures CountUsed(procs[p := v]) == CountUsed(procs)
      - (if procs[p] != 0 then 1 else 0) + (if v != 0 then 1 else 0)
    decreases |procs|
  {
    var n := |procs| - 1;
    var updated := procs[p := v];
    assert updated[..n] == if p == n then procs[..n] else procs[..n][p := v];
    if p != n {
      CountUsedUpdate(procs[..n], p, v);
    }
  }

  /** The null operations (garbage_read/write/open/close): every call fails with -1. */
  function NullRead(fd: int, nbytes: int): int { -1 }
  function NullWrite(fd: int, nbytes: int): int { -1 }
  function NullOpen(filename: Option<CString>): int { -1 }
  function NullClose(fd: int): int { -1 }
}
