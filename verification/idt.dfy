/**
 * The interrupt descriptor table as populate_idt fills it: every vector gets a
 * present 32-bit gate in the kernel code segment, the reserved bits that make
 * vectors below 0x20 trap gates and the rest interrupt gates (section 6.11 of
 * the Intel SDM, Vol. 3A), privilege level 3 only for the system call vector
 * 0x80, and a handler.
 */
module Idt {
  import opened Common

  /**
   * The routine a gate points at: the dedicated handler of exception v, the
   * catch-all exception handler, the keyboard, clock and system-call entry
   * points, or nothing yet.
   */
  datatype Handler = Dedicated(vector: nat) | General | KeyboardEntry | RtcEntry | SystemCallEntry | Unset

  /** The fields populate_idt sets. */
  datatype Gate = Gate(
    present: int,
    size: int,
    selector: Segment,
    dpl: int,
    reserved0: int,
    reserved1: int,
    reserved2: int,
    reserved3: int,
    reserved4: int,
    handler: Handler)

  /** A gate of the zero-initialised table before populate_idt. */
  const BLANK: Gate := Gate(0, 0, NullSelector, 0, 0, 0, 0, 0, 0, Unset)

  const SYSCALL_VECTOR: int := 0x80
  const KEYBOARD_VECTOR: int := 0x21
  const RTC_VECTOR: int := 0x28
  /** First vector that is not a processor exception. */
  const FIRST_IRQ_VECTOR: int := 0x20

  /** The gate the first loop writes for vector i, keeping the handler it had below 32. */
  function BaseGate(i: nat, prev: Gate): (g: Gate)
  {
    Gate(1, 1, KernelCode, if i == SYSCALL_VECTOR then 3 else 0, 0, 1, 1,
         if i >= FIRST_IRQ_VECTOR then 0 else 1, 0,
         if i >= 32 then General else prev.handler)
  }

  /** A trap gate (reserved3 = 1) leaves interrupts enabled; an interrupt gate (0) clears IF. */
  predicate IsTrapGate(g: Gate)
  {
    g.reserved3 == 1
  }

  /**
   * populate_idt over a table of numVec vectors (NUM_VEC, defined in a header not
   * part of this model; the table must reach vector 0x80).
   */
  method PopulateIdt(numVec: nat) returns (idt: seq<Gate>)
    requires numVec > SYSCALL_VECTOR
    ensures |idt| == numVec
    ensures forall v :: 0 <= v < numVec ==>
      idt[v].present == 1 && idt[v].size == 1 && idt[v].selector == KernelCode
    ensures forall v :: 0 <= v < numVec ==> (idt[v].dpl == 3 <==> v == SYSCALL_VECTOR) && idt[v].dpl in {0, 3}
    ensures forall v :: 0 <= v < numVec ==> (IsTrapGate(idt[v]) <==> v < FIRST_IRQ_VECTOR)
    ensures forall v :: 0 <= v < numVec ==> idt[v].reserved3 in {0, 1}
    ensures forall v :: 0 <= v < numVec ==>
      idt[v].reserved0 == 0 && idt[v].reserved1 == 1 && idt[v].reserved2 == 1 && idt[v].reserved4 == 0
    ensures forall v :: 0 <= v < 0x14 && v != 0x09 && v != 0x0F ==> idt[v].handler == Dedicated(v)
    ensures idt[0x09].handler == General && idt[0x0F].handler == General
    ensures forall v :: 0x14 <= v < FIRST_IRQ_VECTOR ==> idt[v].handler == General
    ensures idt[KEYBOARD_VECTOR].handler == KeyboardEntry
    ensures idt[RTC_VECTOR].handler == RtcEntry
    ensures idt[SYSCALL_VECTOR].handler == SystemCallEntry
    ensures forall v :: FIRST_IRQ_VECTOR <= v < numVec && v !in {KEYBOARD_VECTOR, RTC_VECTOR, SYSCALL_VECTOR}
              ==> idt[v].handler == General
    ensures forall v :: 0 <= v < numVec ==> idt[v].handler != Unset
  {
    idt := seq(numVec, _ => BLANK);
    var i := 0;
    while i < numVec
      invariant 0 <= i <= numVec && |idt| == numVec
      invariant forall j :: 0 <= j < i ==> idt[j] == BaseGate(j, BLANK)
      invariant forall j :: i <= j < numVec ==> idt[j] == BLANK
    {
      idt := idt[i := BaseGate(i, idt[i])];
      i := i + 1;
    }
    var v := 0;
    while v < 0x14
      invariant 0 <= v <= 0x14 && |idt| == numVec
      invariant forall j :: 0 <= j < v ==> idt[j] == BaseGate(j, BLANK).(handler := ExceptionHandler(j))
      invariant forall j :: v <= j < numVec ==> idt[j] == BaseGate(j, BLANK)
    {
      idt := idt[v := idt[v].(handler := ExceptionHandler(v))];
      v := v + 1;
    }
    i := 20;
    while i < 32
      invariant 20 <= i <= 32 && |idt| == numVec
      invariant forall j :: 0 <= j < 20 ==> idt[j] == BaseGate(j, BLANK).(handler := ExceptionHandler(j))
      invariant forall j :: 20 <= j < i ==> idt[j] == BaseGate(j, BLANK).(handler := General)
      invariant forall j :: i <= j < numVec ==> idt[j] == BaseGate(j, BLANK)
    {
      idt := idt[i := idt[i].(handler := General)];
      i := i + 1;
    }
    idt := idt[KEYBOARD_VECTOR := idt[KEYBOARD_VECTOR].(handler := KeyboardEntry)];
    idt := idt[RTC_VECTOR := idt[RTC_VECTOR].(handler := RtcEntry)];
    idt := idt[SYSCALL_VECTOR := idt[SYSCALL_VECTOR].(handler := SystemCallEntry)];
  }

  /** The handler of exception vector v < 0x14: its own, except 0x09 and 0x0F which share the catch-all. */
  function ExceptionHandler(v: nat): (h: Handler)
    requires v < 0x14
    ensures h == General || h == Dedicated(v)
  {
    if v == 0x09 || v == 0x0F then General else Dedicated(v)
  }
}
