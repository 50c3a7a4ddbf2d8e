/**
 * The three terminals. Only the visible one owns the keyboard: its typed line,
 * completed line and typing position live in the keyboard editor, while every
 * other terminal keeps its own in a slot. Switching saves the live state into
 * the outgoing slot, loads the incoming one and moves visibility; a terminal
 * reached for the first time is started and gets a shell.
 */
module Terminal {
  import opened Common
  import Keyboard

  const NUM_TERMS: int := 3

  /**
   * One terminal_t. The saved typing position is a uint8_t, so storing the live
   * position into it keeps only its low eight bits.
   */
  datatype Slot = Slot(
    started: bool,
    visible: bool,
    oldBuf: seq<char>,
    newBuf: seq<char>,
    index: int,
    screenX: int,
    screenY: int)

  /** The terminals, the global visible_terminal, and the keyboard editor holding the live line. */
  datatype Desk = Desk(slots: seq<Slot>, visibleTerm: int, keys: Keyboard.Keys)

  /** A slot whose buffers have the keyboard's length and whose saved position is one the keyboard accepts. */
  predicate SlotFits(s: Slot, maxBuffer: int)
  {
    |s.newBuf| == |s.oldBuf| == maxBuffer && 0 <= s.index < 256 && s.index <= maxBuffer - 1
  }

  predicate Valid(d: Desk)
  {
    |d.slots| == NUM_TERMS && 0 <= d.visibleTerm < NUM_TERMS && Keyboard.Valid(d.keys)
    && forall i :: 0 <= i < NUM_TERMS ==> SlotFits(d.slots[i], Keyboard.MaxBuffer(d.keys))
  }

  /** Exactly the terminal named by visible_terminal is marked visible. */
  predicate OneVisible(d: Desk)
    requires |d.slots| == NUM_TERMS
  {
    forall i :: 0 <= i < NUM_TERMS ==> (d.slots[i].visible <==> i == d.visibleTerm)
  }

  /** A slot as init_terminal leaves it. */
  function EmptySlot(maxBuffer: nat, first: bool): (s: Slot)
    requires maxBuffer >= 1
    ensures SlotFits(s, maxBuffer)
  {
    Slot(first, first, Keyboard.Zeros(maxBuffer), Keyboard.Zeros(maxBuffer), 0, 0, 0)
  }

  /**
   * init_terminal: every slot's buffers, position and screen position are
   * cleared, and only terminal 0 is started and visible. It does not assign
   * visible_terminal or touch the live keyboard state.
   */
  function InitTerminal(d: Desk): (d': Desk)
    requires Keyboard.Valid(d.keys)
    ensures d'.keys == d.keys && d'.visibleTerm == d.visibleTerm && |d'.slots| == NUM_TERMS
    ensures forall i :: 0 <= i < NUM_TERMS ==>
      d'.slots[i].newBuf == Keyboard.Zeros(Keyboard.MaxBuffer(d.keys))
      && d'.slots[i].oldBuf == Keyboard.Zeros(Keyboard.MaxBuffer(d.keys))
      && d'.slots[i].index == 0 && d'.slots[i].screenX == 0 && d'.slots[i].screenY == 0
    ensures forall i :: 0 <= i < NUM_TERMS ==> (d'.slots[i].started <==> i == 0) && (d'.slots[i].visible <==> i == 0)
    ensures 0 <= d.visibleTerm < NUM_TERMS ==> Valid(d')
    ensures d.visibleTerm == 0 ==> OneVisible(d')
  {
    var n := |d.keys.newBuf|;
    d.(slots := [EmptySlot(n, true), EmptySlot(n, false), EmptySlot(n, false)])
  }

  /** launch_terminal, up to the shell it runs: the visible terminal is marked started. */
  function LaunchTerminal(d: Desk): (d': Desk)
    requires Valid(d)
    ensures Valid(d') && d'.slots[d.visibleTerm].started
    ensures forall i :: 0 <= i < NUM_TERMS && i != d.visibleTerm ==> d'.slots[i] == d.slots[i]
    ensures d'.keys == d.keys && d'.visibleTerm == d.visibleTerm
  {
    d.(slots := d.slots[d.visibleTerm := d.slots[d.visibleTerm].(started := true)])
  }

  /** The result of switch_terminal, and whether it launched a shell on a new terminal. */
  datatype Switch = Switch(rc: int, desk: Desk, launched: bool)

  /**
   * switch_terminal: -1 for a number outside 0..2 and 0 for the visible one,
   * both with no change. Otherwise the live lines and position are saved into
   * the outgoing slot and the incoming slot's are loaded, visibility moves, and
   * a terminal never started is launched. The screen-position bookkeeping and
   * the screen copy are not part of this model.
   */
  function SwitchTerminal(d: Desk, to: int): (r: Switch)
    requires Valid(d)
    ensures Valid(r.desk)
    ensures (to < 0 || to >= NUM_TERMS) ==> r == Switch(-1, d, false)
    ensures to == d.visibleTerm ==> r == Switch(0, d, false)
    ensures 0 <= to < NUM_TERMS ==> r.rc == 0 && r.desk.visibleTerm == to
    ensures 0 <= to < NUM_TERMS && to != d.visibleTerm ==>
      r.desk.keys.newBuf == d.slots[to].newBuf && r.desk.keys.oldBuf == d.slots[to].oldBuf
      && r.desk.keys.index == d.slots[to].index
    ensures 0 <= to < NUM_TERMS && to != d.visibleTerm ==>
      var saved := r.desk.slots[d.visibleTerm];
      saved.newBuf == d.keys.newBuf && saved.oldBuf == d.keys.oldBuf && saved.index == d.keys.index % 256
  {
    if to < 0 || to > 2 then Switch(-1, d, false)
    else if to == d.visibleTerm then Switch(0, d, false)
    else
      var from := d.visibleTerm;
      var saved := d.slots[from].(newBuf := d.keys.newBuf, oldBuf := d.keys.oldBuf, index := d.keys.index % 256);
      var keys := d.keys.(newBuf := d.slots[to].newBuf, oldBuf := d.slots[to].oldBuf, index := d.slots[to].index);
      var slots := d.slots[from := saved.(visible := false)];
      var slots' := slots[to := slots[to].(visible := true)];
      var moved := Desk(slots', to, keys);
      if !d.slots[to].started then Switch(0, LaunchTerminal(moved), true)
      else Switch(0, moved, false)
  }

  /** After a switch exactly the requested terminal is visible, and it is started. */
  lemma SwitchMovesVisibility(d: Desk, to: int)
    requires Valid(d) && OneVisible(d) && 0 <= to < NUM_TERMS
    ensures OneVisible(SwitchTerminal(d, to).desk)
    ensures d.slots[to].started ==> SwitchTerminal(d, to).desk.slots[to].started
    ensures to != d.visibleTerm ==> SwitchTerminal(d, to).desk.slots[to].started
    ensures SwitchTerminal(d, to).launched <==> to != d.visibleTerm && !d.slots[to].started
  {
  }

  /** A terminal once started stays started: neither a switch nor a launch clears the flag. */
  lemma StartedIsMonotone(d: Desk, to: int, i: int)
    requires Valid(d) && 0 <= i < NUM_TERMS && d.slots[i].started
    ensures SwitchTerminal(d, to).desk.slots[i].started
    ensures LaunchTerminal(d).slots[i].started
  {
  }

  /**
   * Switching away and back restores the live lines and, when it fits the
   * uint8_t slot, the typing position; the other editor state is untouched.
   */
  lemma SwitchAwayAndBack(d: Desk, b: int)
    requires Valid(d) && 0 <= b < NUM_TERMS && b != d.visibleTerm
    ensures var back := SwitchTerminal(SwitchTerminal(d, b).desk, d.visibleTerm).desk;
      back.visibleTerm == d.visibleTerm
      && back.keys.newBuf == d.keys.newBuf && back.keys.oldBuf == d.keys.oldBuf
      && back.keys.index == d.keys.index % 256
      && (d.keys.index < 256 ==> back.keys == d.keys)
  {
  }

  /** A typing position of 256 or more does not survive the round trip. */
  lemma LongLinePositionTruncated(d: Desk, b: int)
    requires Valid(d) && 0 <= b < NUM_TERMS && b != d.visibleTerm && d.keys.index >= 256
    ensures SwitchTerminal(SwitchTerminal(d, b).desk, d.visibleTerm).desk.keys.index != d.keys.index
  {
  }
}
