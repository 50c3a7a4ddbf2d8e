/**
 * The real-time clock driver: the frequency a program asks for becomes the rate
 * select value RS3..RS0 in the low nibble of the MC146818 Register A, where rate
 * r in 3..15 gives a periodic interrupt of 32768 >> (r - 1) Hz and 0 turns it
 * off. The interrupt handler raises a flag that a read consumes.
 */
module Rtc {
  import opened Common

  /**
   * The two I/O ports of the clock: the index port that selects a register and
   * the data port. Their numbers are defined in a header that is not part of
   * this model, so they are symbolic.
   */
  datatype Port = IndexPort | DataPort

  /** One outb: the value written and the port. */
  datatype PortWrite = PortWrite(port: Port, value: Byte)

  /** Select Register A with non-maskable interrupts disabled. */
  const SELECT_A: Byte := 0x8A
  /** Select Register C, whose read acknowledges the interrupt. */
  const SELECT_C: Byte := 0x0C
  /** The rate open and close program: 2 Hz. */
  const SLOWEST_RATE: Byte := 0x0F

  /** The clock as the driver sees it: Register A, the interrupt flag and the writes made so far. */
  datatype Clock = Clock(regA: Byte, interrupt: bool, log: seq<PortWrite>)

  /** x >> n. */
  function ShiftRight(x: nat, n: nat): nat
  {
    if n == 0 then x else ShiftRight(x / 2, n - 1)
  }

  /** Shifting by a + b is shifting by a, then by b. */
  lemma {:induction false} ShiftRightAdd(x: nat, a: nat, b: nat)
    ensures ShiftRight(x, a + b) == ShiftRight(ShiftRight(x, a), b)
    decreases a
  {
    if a > 0 {
      ShiftRightAdd(x / 2, a - 1, b);
    }
  }

  /** Rate 15, the slowest, is 2 Hz. */
  lemma SlowestIs2Hz()
    ensures RateFrequency(15) == 2
  {
    ShiftRightAdd(32768, 7, 7);
  }

  /** The frequency in Hz of rate value r (1..15): 32768 >> (r - 1). */
  function RateFrequency(r: int): nat
    requires 1 <= r <= 15
  {
    ShiftRight(32768, r - 1)
  }

  /** rtc_write's switch: the rate for a supported frequency, None for any other. */
  function RateFor(freq: int): (r: Option<Byte>)
    ensures r.Some? ==> r.value == 0 || 6 <= r.value <= 15
  {
    match freq
    case 1024 => Some(0x06)
    case 512 => Some(0x07)
    case 256 => Some(0x08)
    case 128 => Some(0x09)
    case 64 => Some(0x0A)
    case 32 => Some(0x0B)
    case 16 => Some(0x0C)
    case 8 => Some(0x0D)
    case 4 => Some(0x0E)
    case 2 => Some(0x0F)
    case 0 => Some(0x00)
    case _ => None
  }

  /**
   * The table agrees with the datasheet: a nonzero rate is accepted exactly for
   * the frequency that rate produces, rate 0 exactly for frequency 0, and every
   * rate from 6 to 15 is reachable.
   */
  lemma RateForMatchesFrequency(freq: int)
    ensures RateFor(freq) == Some(0) <==> freq == 0
    ensures RateFor(freq).Some? && RateFor(freq).value != 0 ==> freq == RateFrequency(RateFor(freq).value)
    ensures forall r :: 6 <= r <= 15 && freq == RateFrequency(r) ==> RateFor(freq) == Some(r)
  {
    assert RateFrequency(6) == 1024 && RateFrequency(7) == 512 && RateFrequency(8) == 256;
    assert RateFrequency(9) == 128 && RateFrequency(10) == 64 && RateFrequency(11) == 32;
    assert RateFrequency(12) == 16 && RateFrequency(13) == 8 && RateFrequency(14) == 4;
    SlowestIs2Hz();
  }

  /**
   * The byte written to Register A, (0xF0 & previous) | rate: the previous upper
   * nibble, the rate in the lower one.
   */
  function RegisterA(previous: Byte, rate: Byte): (v: Byte)
    requires rate < 16
    ensures v / 16 == previous / 16 && v % 16 == rate
  {
    previous - previous % 16 + rate
  }

  /** Select Register A, read it, select it again and write the new value; returns the new clock. */
  function ProgramRate(c: Clock, rate: Byte): (c': Clock)
    requires rate < 16
    ensures c'.regA / 16 == c.regA / 16 && c'.regA % 16 == rate
    ensures c'.interrupt == c.interrupt
    ensures c'.log == c.log + [PortWrite(IndexPort, SELECT_A), PortWrite(IndexPort, SELECT_A),
                               PortWrite(DataPort, c'.regA)]
  {
    var v := RegisterA(c.regA, rate);
    Clock(v, c.interrupt, c.log + [PortWrite(IndexPort, SELECT_A), PortWrite(IndexPort, SELECT_A),
                                   PortWrite(DataPort, v)])
  }

  /** rtc_write: -1 and no port access for an unsupported frequency, else program its rate. */
  function RtcWrite(c: Clock, freq: int): (r: (int, Clock))
    ensures RateFor(freq).None? <==> r.0 == -1
    ensures RateFor(freq).None? ==> r.1 == c
    ensures RateFor(freq).Some? ==> r.0 == 0 && r.1.regA % 16 == RateFor(freq).value
                                     && r.1.regA / 16 == c.regA / 16
  {
    match RateFor(freq)
    case None => (-1, c)
    case Some(rate) => (0, ProgramRate(c, rate))
  }

  /** rtc_open: program the slowest rate, 2 Hz. */
  function RtcOpen(c: Clock): (r: (int, Clock))
    ensures r.0 == 0 && r.1.regA % 16 == SLOWEST_RATE && RateFrequency(r.1.regA % 16) == 2
  {
    SlowestIs2Hz();
    (0, ProgramRate(c, SLOWEST_RATE))
  }

  /** rtc_close: the same as open, back to 2 Hz. */
  function RtcClose(c: Clock): (r: (int, Clock))
    ensures r.0 == 0 && r.1.regA % 16 == SLOWEST_RATE
  {
    (0, ProgramRate(c, SLOWEST_RATE))
  }

  /** Opening or closing the clock is writing the frequency 2 Hz. */
  lemma OpenCloseAreWrite2(c: Clock)
    ensures RtcOpen(c) == RtcWrite(c, 2) && RtcClose(c) == RtcWrite(c, 2)
  {
  }

  /**
   * The interrupt handler: reads Register C to acknowledge the interrupt and
   * raises the flag.
   */
  function HandleInterrupt(c: Clock): (c': Clock)
    ensures c'.interrupt && c'.regA == c.regA
    ensures c'.log == c.log + [PortWrite(IndexPort, SELECT_C)]
  {
    Clock(c.regA, true, c.log + [PortWrite(IndexPort, SELECT_C)])
  }

  /**
   * rtc_read once an interrupt has arrived (the busy wait before it is the
   * precondition): clears the flag and returns 0.
   */
  function RtcRead(c: Clock): (r: (int, Clock))
    requires c.interrupt
    ensures r.0 == 0 && !r.1.interrupt && r.1.regA == c.regA && r.1.log == c.log
  {
    (0, c.(interrupt := false))
  }

  /** Each read consumes one interrupt: after an interrupt and a read the flag is down again. */
  lemma ReadConsumesInterrupt(c: Clock)
    ensures RtcRead(HandleInterrupt(c)).1 == HandleInterrupt(c).(interrupt := false)
    ensures !c.interrupt ==> RtcRead(HandleInterrupt(c)).1.interrupt == c.interrupt
  {
  }
}
