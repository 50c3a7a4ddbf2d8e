/**
 * The two cascaded 8259A interrupt controllers: the interrupt masks the kernel
 * keeps for them (OCW1, a set bit masks a line), the mask updates of
 * enable_irq and disable_irq, and the end-of-interrupt commands (OCW2) of
 * send_eoi. Lines 0..7 belong to the master, 8..15 to the slave on master line 2.
 */
module Pic {
  import opened Common

  /** The command and data ports of each controller (numbers in a header not part of this model). */
  datatype PicPort = MasterCommand | MasterData | SlaveCommand | SlaveData

  datatype PicWrite = PicWrite(port: PicPort, value: bv8)

  /** Both masks as kept by the kernel, and the writes made so far. */
  datatype Pic = Pic(master: bv8, slave: bv8, log: seq<PicWrite>)

  /** At start every line of both controllers is masked. */
  const INITIAL: Pic := Pic(0xFF, 0xFF, [])

  /** 1 << k, for a bit position k of a byte. */
  function BitValue(k: nat): bv8
    requires k < 8
  {
    [1, 2, 4, 8, 0x10, 0x20, 0x40, 0x80][k]
  }

  /** Bit k of a mask. */
  predicate Bit(m: bv8, k: nat)
    requires k < 8
  {
    m & BitValue(k) != 0
  }

  /** Two masks agree on every bit except possibly bit n. */
  predicate AgreeExcept(a: bv8, b: bv8, n: nat)
  {
    forall k :: 0 <= k < 8 && k != n ==> (Bit(a, k) <==> Bit(b, k))
  }

  /**
   * The low byte of enable_irq's mask after its loop ran n times, starting at
   * 0xFE with mask := (mask << 1) + 1 per step. Only the low byte matters: it is
   * and-ed into an 8-bit mask, and the low byte of each step depends only on the
   * low byte of the step before.
   */
  function LoopMask(n: nat): bv8
  {
    if n == 0 then 0xFE else (LoopMask(n - 1) << 1) + 1
  }

  /** After n < 8 steps the mask has every bit set but bit n; from 8 steps on all bits are set. */
  lemma LoopMaskValue(n: nat)
    ensures n < 8 ==> LoopMask(n) == !BitValue(n)
    ensures n >= 8 ==> LoopMask(n) == 0xFF
  {
    assert LoopMask(0) == 0xFE && LoopMask(1) == 0xFD && LoopMask(2) == 0xFB && LoopMask(3) == 0xF7;
    assert LoopMask(4) == 0xEF && LoopMask(5) == 0xDF && LoopMask(6) == 0xBF && LoopMask(7) == 0x7F;
    assert LoopMask(8) == 0xFF;
    if n > 8 {
      LoopMaskSaturates(n);
    }
  }

  lemma {:induction false} LoopMaskSaturates(n: nat)
    requires n >= 8
    ensures LoopMask(n) == 0xFF
  {
    if n > 8 {
      LoopMaskSaturates(n - 1);
    } else {
      assert LoopMask(7) == 0x7F;
    }
  }

  /** And-ing the loop mask for n < 8 clears exactly bit n. */
  lemma ClearsExactlyBit(m: bv8, n: nat)
    requires n < 8
    ensures var r := m & LoopMask(n);
      !Bit(r, n) && AgreeExcept(r, m, n)
  {
    LoopMaskValue(n);
  }

  /**
   * enable_irq as written: for a slave line the mask update and write are right;
   * for a master line the loop mask is and-ed into the SLAVE mask and the
   * unchanged master mask is written.
   */
  function EnableIrqAsWritten(p: Pic, irq: Word): (p': Pic)
    ensures irq > 7 ==> p' == Pic(p.master, p.slave & LoopMask(irq - 8),
                                  p.log + [PicWrite(SlaveData, p'.slave)])
    ensures irq <= 7 ==> p'.master == p.master && p'.slave == p.slave & LoopMask(irq)
                         && p'.log == p.log + [PicWrite(MasterData, p.master)]
  {
    if irq > 7 then
      var s := p.slave & LoopMask(irq - 8);
      Pic(p.master, s, p.log + [PicWrite(SlaveData, s)])
    else
      var s := p.slave & LoopMask(irq);
      Pic(p.master, s, p.log + [PicWrite(MasterData, p.master)])
  }

  /** enable_irq as evidently intended: the master branch updates and writes the master mask. */
  function EnableIrq(p: Pic, irq: Word): (p': Pic)
    ensures irq > 7 ==> p' == EnableIrqAsWritten(p, irq)
    ensures irq <= 7 ==> p'.slave == p.slave && p'.log == p.log + [PicWrite(MasterData, p'.master)]
  {
    if irq > 7 then
      var s := p.slave & LoopMask(irq - 8);
      Pic(p.master, s, p.log + [PicWrite(SlaveData, s)])
    else
      var m := p.master & LoopMask(irq);
      Pic(m, p.slave, p.log + [PicWrite(MasterData, m)])
  }

  /**
   * Enabling a master line n <= 7 unmasks exactly bit n of the master mask,
   * leaves the slave mask alone and sends the updated master mask.
   */
  lemma EnableMasterLine(p: Pic, irq: Word)
    requires irq <= 7
    ensures var p' := EnableIrq(p, irq);
      !Bit(p'.master, irq) && AgreeExcept(p'.master, p.master, irq)
      && p'.slave == p.slave && p'.log == p.log + [PicWrite(MasterData, p'.master)]
  {
    ClearsExactlyBit(p.master, irq);
  }

  /**
   * Enabling a slave line 8 <= n <= 15 unmasks exactly bit n - 8 of the slave
   * mask, leaves the master mask alone and sends the updated slave mask.
   */
  lemma EnableSlaveLine(p: Pic, irq: Word)
    requires 8 <= irq <= 15
    ensures var p' := EnableIrq(p, irq);
      !Bit(p'.slave, irq - 8) && AgreeExcept(p'.slave, p.slave, irq - 8)
      && p'.master == p.master && p'.log == p.log + [PicWrite(SlaveData, p'.slave)]
  {
    ClearsExactlyBit(p.slave, irq - 8);
  }

  /**
   * The keyboard line (1) never gets unmasked by the code as written: from the
   * initial state the master mask stays 0xFF and slave line 1 is unmasked instead.
   */
  lemma EnableKeyboardAsWritten()
    ensures EnableIrqAsWritten(INITIAL, 1).master == 0xFF
    ensures EnableIrqAsWritten(INITIAL, 1).slave == 0xFD
    ensures EnableIrq(INITIAL, 1).master == 0xFD
  {
    LoopMaskValue(1);
  }

  /** The 8-bit part of 1 << s, for a shift count s below 32: bit s when s < 8, else nothing. */
  function LowBitOf(s: nat): (m: bv8)
    requires s < 32
    ensures s < 8 ==> Bit(m, s) && forall k :: 0 <= k < 8 && k != s ==> !Bit(m, k)
    ensures s >= 8 ==> m == 0
  {
    if s < 8 then BitValue(s) else 0
  }

  /**
   * disable_irq as written. Line numbers above 7 are first reduced by 8, and
   * only then is the slave branch chosen for a number above 7, so lines 8..15 set
   * a MASTER bit and the slave branch runs only for lines 16..39, whose shifted
   * bit falls outside the 8-bit mask. Shifting by 32 or more is undefined in C,
   * which is why the line must stay below 40.
   */
  function DisableIrqAsWritten(p: Pic, irq: Word): (p': Pic)
    requires irq < 40
    ensures p'.slave == p.slave
    ensures irq <= 15 ==> p'.master == p.master | LowBitOf(irq % 8)
                          && p'.log == p.log + [PicWrite(MasterData, p'.master)]
    ensures irq > 15 ==> p'.master == p.master && p'.log == p.log + [PicWrite(SlaveData, p.slave)]
  {
    var n := if irq > 7 then irq - 8 else irq;
    if n > 7 then
      var s := p.slave | LowBitOf(n);
      Pic(p.master, s, p.log + [PicWrite(SlaveData, s)])
    else
      var m := p.master | LowBitOf(n);
      Pic(m, p.slave, p.log + [PicWrite(MasterData, m)])
  }

  /**
   * disable_irq as evidently intended: a slave line masks its bit of the slave
   * mask, a master line its bit of the master mask; other numbers change nothing.
   */
  function DisableIrq(p: Pic, irq: Word): (p': Pic)
    ensures irq <= 7 ==> p' == DisableIrqAsWritten(p, irq)
    ensures irq > 15 ==> p' == p
  {
    if irq > 15 then p
    else if irq > 7 then
      var s := p.slave | LowBitOf(irq - 8);
      Pic(p.master, s, p.log + [PicWrite(SlaveData, s)])
    else
      var m := p.master | LowBitOf(irq);
      Pic(m, p.slave, p.log + [PicWrite(MasterData, m)])
  }

  /** Disabling a master line n <= 7 masks exactly bit n of the master mask. */
  lemma DisableMasterLine(p: Pic, irq: Word)
    requires irq <= 7
    ensures var p' := DisableIrq(p, irq);
      Bit(p'.master, irq) && AgreeExcept(p'.master, p.master, irq)
      && p'.slave == p.slave && p'.log == p.log + [PicWrite(MasterData, p'.master)]
  {
    SetsExactlyBit(p.master, irq);
  }

  /** Disabling a slave line 8 <= n <= 15 masks exactly bit n - 8 of the slave mask. */
  lemma DisableSlaveLine(p: Pic, irq: Word)
    requires 8 <= irq <= 15
    ensures var p' := DisableIrq(p, irq);
      Bit(p'.slave, irq - 8) && AgreeExcept(p'.slave, p.slave, irq - 8)
      && p'.master == p.master && p'.log == p.log + [PicWrite(SlaveData, p'.slave)]
  {
    SetsExactlyBit(p.slave, irq - 8);
  }

  /** Disabling undoes enabling: afterwards both masks are as before, except that the line is masked. */
  lemma EnableThenDisableIrq(p: Pic, irq: Word)
    requires irq <= 15
    ensures var q := DisableIrq(EnableIrq(p, irq), irq);
      if irq <= 7 then q.master == p.master | LowBitOf(irq) && q.slave == p.slave
      else q.slave == p.slave | LowBitOf(irq - 8) && q.master == p.master
  {
    EnableThenDisable(if irq <= 7 then p.master else p.slave, if irq <= 7 then irq else irq - 8);
  }

  /** Or-ing in bit n sets exactly that bit. */
  lemma SetsExactlyBit(m: bv8, n: nat)
    requires n < 8
    ensures var r := m | LowBitOf(n);
      Bit(r, n) && AgreeExcept(r, m, n)
  {
  }

  /** Clearing bit n and setting it again leaves the mask with bit n set and all else as before. */
  lemma EnableThenDisable(m: bv8, n: nat)
    requires n < 8
    ensures (m & LoopMask(n)) | LowBitOf(n) == m | LowBitOf(n)
  {
    LoopMaskValue(n);
  }

  /**
   * The real-time clock line (8) as written: its disable sets master bit 0, the
   * timer line, and leaves the slave mask alone; the intended disable masks
   * slave bit 0.
   */
  lemma DisableRtcAsWritten(p: Pic)
    ensures DisableIrqAsWritten(p, 8).master == p.master | 1
    ensures DisableIrqAsWritten(p, 8).slave == p.slave
    ensures DisableIrq(p, 8).slave == p.slave | 1 && DisableIrq(p, 8).master == p.master
  {
  }

  /**
   * send_eoi with the OCW2 end-of-interrupt command `eoi`: a slave line gets the
   * command or-ed with its slave line number on the slave, then the command plus
   * 2 (the cascade line) on the master; a master line gets it or-ed with the line
   * on the master only. The masks do not change.
   */
  function SendEoi(p: Pic, irq: Word, eoi: bv8): (p': Pic)
    ensures p'.master == p.master && p'.slave == p.slave
    ensures irq <= 7 ==> p'.log == p.log + [PicWrite(MasterCommand, eoi | LowByte(irq))]
    ensures irq > 7 ==> p'.log == p.log + [PicWrite(SlaveCommand, eoi | LowByte(irq - 8)),
                                          PicWrite(MasterCommand, eoi + 2)]
  {
    if irq > 7 then
      Pic(p.master, p.slave, p.log + [PicWrite(SlaveCommand, eoi | LowByte(irq - 8)),
                                      PicWrite(MasterCommand, eoi + 2)])
    else
      Pic(p.master, p.slave, p.log + [PicWrite(MasterCommand, eoi | LowByte(irq))])
  }

  /** The byte outb sends for a 32-bit value: its low 8 bits. */
  function LowByte(x: Word): bv8
  {
    (x % 256) as bv8
  }

  /**
   * With the specific-EOI command 0x60 (level bits 000), every line 0..15 gets an
   * acknowledgement naming its own level on its own controller, and a slave line
   * also acknowledges level 2, the cascade, on the master.
   */
  lemma SpecificEoiNamesLine(p: Pic, irq: Word)
    requires irq <= 15
    ensures var log := SendEoi(p, irq, 0x60).log[|p.log|..];
      if irq <= 7 then log == [PicWrite(MasterCommand, 0x60 + (irq as bv8))]
      else log == [PicWrite(SlaveCommand, 0x60 + ((irq - 8) as bv8)), PicWrite(MasterCommand, 0x62)]
  {
    var line: bv8 := if irq <= 7 then irq as bv8 else (irq - 8) as bv8;
    assert line < 8;
    assert 0x60 | line == 0x60 + line;
  }
}
