/**
 * The keyboard line editor: scancodes update the modifier flags and, for an
 * ordinary key press, put a character from one of four tables into the line
 * being typed. Backspace removes the last character, Enter moves the line to
 * the completed-line buffer and raises the flag terminal_read waits for.
 * MAXBUFFER, defined in a header that is not part of this model, is the length
 * of both buffers.
 */
module Keyboard {
  import opened Common

  const CAPS_PRESS: Byte := 0x3A
  const LEFT_SHIFT_PRESS: Byte := 0x2A
  const LEFT_SHIFT_RELEASE: Byte := 0xAA
  const RIGHT_SHIFT_PRESS: Byte := 0x36
  const RIGHT_SHIFT_RELEASE: Byte := 0xB6
  const CONTROL_PRESS: Byte := 0x1D
  const CONTROL_RELEASE: Byte := 0x9D
  const L_PRESS: Byte := 0x26
  const ENTER_PRESS: Byte := 0x1C
  const BACKSPACE_PRESS: Byte := 0x0E
  /** Scancodes with this bit set report a key release. */
  const RELEASE_BIT: Byte := 0x80
  const TERM_COLS: int := 80

  /**
   * The four scancode tables. Each has 128 entries of which the first 59 are
   * initialised; every entry left out here is NUL.
   */
  /** Plain keys. */
  function Table1(c: Byte): char
  {
    match c
    case 0x02 => '1' case 0x03 => '2' case 0x04 => '3' case 0x05 => '4' case 0x06 => '5'
    case 0x07 => '6' case 0x08 => '7' case 0x09 => '8' case 0x0A => '9' case 0x0B => '0'
    case 0x0C => '-' case 0x0D => '=' case 0x10 => 'q' case 0x11 => 'w' case 0x12 => 'e'
    case 0x13 => 'r' case 0x14 => 't' case 0x15 => 'y' case 0x16 => 'u' case 0x17 => 'i'
    case 0x18 => 'o' case 0x19 => 'p' case 0x1A => '[' case 0x1B => ']' case 0x1E => 'a'
    case 0x1F => 's' case 0x20 => 'd' case 0x21 => 'f' case 0x22 => 'g' case 0x23 => 'h'
    case 0x24 => 'j' case 0x25 => 'k' case 0x26 => 'l' case 0x27 => ';' case 0x28 => '\''
    case 0x29 => '`' case 0x2B => '\\' case 0x2C => 'z' case 0x2D => 'x' case 0x2E => 'c'
    case 0x2F => 'v' case 0x30 => 'b' case 0x31 => 'n' case 0x32 => 'm' case 0x33 => ','
    case 0x34 => '.' case 0x35 => '/' case 0x39 => ' '
    case _ => NUL
  }

  /** Shift held. */
  function Table2(c: Byte): char
  {
    match c
    case 0x02 => '!' case 0x03 => '@' case 0x04 => '#' case 0x05 => '$' case 0x06 => '%'
    case 0x07 => '^' case 0x08 => '&' case 0x09 => '*' case 0x0A => '(' case 0x0B => ')'
    case 0x0C => '_' case 0x0D => '+' case 0x10 => 'Q' case 0x11 => 'W' case 0x12 => 'E'
    case 0x13 => 'R' case 0x14 => 'T' case 0x15 => 'Y' case 0x16 => 'U' case 0x17 => 'I'
    case 0x18 => 'O' case 0x19 => 'P' case 0x1A => '{' case 0x1B => '}' case 0x1E => 'A'
    case 0x1F => 'S' case 0x20 => 'D' case 0x21 => 'F' case 0x22 => 'G' case 0x23 => 'H'
    case 0x24 => 'J' case 0x25 => 'K' case 0x26 => 'L' case 0x27 => ':' case 0x28 => '"'
    case 0x29 => '~' case 0x2B => '\\' case 0x2C => 'Z' case 0x2D => 'X' case 0x2E => 'C'
    case 0x2F => 'V' case 0x30 => 'B' case 0x31 => 'N' case 0x32 => 'M' case 0x33 => '<'
    case 0x34 => '>' case 0x35 => '?' case 0x39 => ' '
    case _ => NUL
  }

  /** Caps lock on. */
  function Table3(c: Byte): char
  {
    match c
    case 0x02 => '1' case 0x03 => '2' case 0x04 => '3' case 0x05 => '4' case 0x06 => '5'
    case 0x07 => '6' case 0x08 => '7' case 0x09 => '8' case 0x0A => '9' case 0x0B => '0'
    case 0x0C => '-' case 0x0D => '=' case 0x10 => 'Q' case 0x11 => 'W' case 0x12 => 'E'
    case 0x13 => 'R' case 0x14 => 'T' case 0x15 => 'Y' case 0x16 => 'U' case 0x17 => 'I'
    case 0x18 => 'O' case 0x19 => 'P' case 0x1A => '[' case 0x1B => ']' case 0x1E => 'A'
    case 0x1F => 'S' case 0x20 => 'D' case 0x21 => 'F' case 0x22 => 'G' case 0x23 => 'H'
    case 0x24 => 'J' case 0x25 => 'K' case 0x26 => 'L' case 0x27 => ';' case 0x28 => '\''
    case 0x29 => '`' case 0x2B => '\\' case 0x2C => 'Z' case 0x2D => 'X' case 0x2E => 'C'
    case 0x2F => 'V' case 0x30 => 'B' case 0x31 => 'N' case 0x32 => 'M' case 0x33 => ','
    case 0x34 => '.' case 0x35 => '/' case 0x39 => ' '
    case _ => NUL
  }

  /** Shift held with caps lock on. */
  function Table4(c: Byte): char
  {
    match c
    case 0x02 => '!' case 0x03 => '@' case 0x04 => '#' case 0x05 => '$' case 0x06 => '%'
    case 0x07 => '^' case 0x08 => '&' case 0x09 => '*' case 0x0A => '(' case 0x0B => ')'
    case 0x0C => '_' case 0x0D => '+' case 0x10 => 'q' case 0x11 => 'w' case 0x12 => 'e'
    case 0x13 => 'r' case 0x14 => 't' case 0x15 => 'y' case 0x16 => 'u' case 0x17 => 'i'
    case 0x18 => 'o' case 0x19 => 'p' case 0x1A => '{' case 0x1B => '}' case 0x1E => 'a'
    case 0x1F => 's' case 0x20 => 'd' case 0x21 => 'f' case 0x22 => 'g' case 0x23 => 'h'
    case 0x24 => 'j' case 0x25 => 'k' case 0x26 => 'l' case 0x27 => ':' case 0x28 => '"'
    case 0x29 => '~' case 0x2B => '\\' case 0x2C => 'z' case 0x2D => 'x' case 0x2E => 'c'
    case 0x2F => 'v' case 0x30 => 'b' case 0x31 => 'n' case 0x32 => 'm' case 0x33 => '<'
    case 0x34 => '>' case 0x35 => '?' case 0x39 => ' '
    case _ => NUL
  }

  function Upper(c: char): char
  {
    if 'a' <= c <= 'z' then (c as int - 32) as char else c
  }

  function Lower(c: char): char
  {
    if 'A' <= c <= 'Z' then (c as int + 32) as char else c
  }

  /** The caps-lock tables are the others with the letters' case changed, and nothing else. */
  lemma CapsTablesChangeOnlyLetters(c: Byte)
    ensures Table3(c) == Upper(Table1(c))
    ensures Table4(c) == Lower(Table2(c))
  {
  }

  /** The entry a key press reads: shift and caps pick one of the four tables. */
  function TableEntry(shift: bool, caps: bool, c: Byte): char
  {
    if shift && caps then Table4(c)
    else if shift then Table2(c)
    else if caps then Table3(c)
    else Table1(c)
  }

  /**
   * The editor state: the modifier and event flags, the typing position in the
   * line and the screen column, the line being typed and the last completed line.
   */
  datatype Keys = Keys(
    caps: bool,
    shift: bool,
    control: bool,
    enter: bool,
    backspace: bool,
    termFlag: bool,
    index: int,
    column: int,
    newBuf: seq<char>,
    oldBuf: seq<char>)

  /** MAXBUFFER. */
  function MaxBuffer(k: Keys): int
  {
    |k.newBuf|
  }

  /** Both buffers hold MAXBUFFER >= 1 characters and the typing position stays below MAXBUFFER - 1. */
  predicate Valid(k: Keys)
  {
    |k.newBuf| == |k.oldBuf| >= 1 && 0 <= k.index <= |k.newBuf| - 1
  }

  /** Everything from the typing position on is NUL. */
  predicate Clean(k: Keys)
    requires Valid(k)
  {
    forall j :: k.index <= j < |k.newBuf| ==> k.newBuf[j] == NUL
  }

  /** n NUL characters. */
  function Zeros(n: nat): (z: seq<char>)
    ensures |z| == n && forall j :: 0 <= j < n ==> z[j] == NUL
  {
    if n == 0 then [] else Zeros(n - 1) + [NUL]
  }

  /** The state init_keyboard leaves with buffers of MAXBUFFER characters. */
  function InitKeys(maxBuffer: nat): (k: Keys)
    requires maxBuffer >= 1
    ensures Valid(k) && Clean(k) && !k.termFlag && MaxBuffer(k) == maxBuffer
  {
    Keys(false, false, false, false, false, false, 0, 0, Zeros(maxBuffer), Zeros(maxBuffer))
  }

  /**
   * write_to_buffer: ignored once the position reaches MAXBUFFER - 1; otherwise the
   * character goes at the position, which moves on by one, and the column
   * wraps to 0 past the last screen column first.
   */
  function WriteToBuffer(k: Keys, ch: char): (k': Keys)
    requires Valid(k)
    ensures Valid(k')
    ensures k.index >= MaxBuffer(k) - 1 ==> k' == k
    ensures k.index < MaxBuffer(k) - 1 ==>
      k'.index == k.index + 1 && k'.newBuf == k.newBuf[k.index := ch]
      && k'.column == (if k.column > TERM_COLS - 1 then 0 else k.column) + 1
      && k' == k.(index := k'.index, newBuf := k'.newBuf, column := k'.column)
  {
    if k.index >= |k.newBuf| - 1 then k
    else
      var col := if k.column > TERM_COLS - 1 then 0 else k.column;
      k.(newBuf := k.newBuf[k.index := ch], index := k.index + 1, column := col + 1)
  }

  /**
   * backspace_buffer: at the start of the line nothing changes; otherwise the
   * position moves back and that character is cleared. The pending-backspace
   * flag is always cleared.
   */
  function BackspaceBuffer(k: Keys): (k': Keys)
    requires Valid(k)
    ensures Valid(k') && !k'.backspace
    ensures k.index == 0 ==> k' == k.(backspace := false)
    ensures k.index > 0 ==> k' == k.(index := k.index - 1, newBuf := k.newBuf[k.index - 1 := NUL],
                                     column := k.column - 1, backspace := false)
  {
    if k.index > 0 then
      k.(index := k.index - 1, newBuf := k.newBuf[k.index - 1 := NUL], column := k.column - 1, backspace := false)
    else k.(backspace := false)
  }

  /**
   * enter_buffer: the typed line becomes the completed line, the typed line is
   * cleared, position and column go back to 0 and the pending-enter flag clears.
   */
  function EnterBuffer(k: Keys): (k': Keys)
    requires Valid(k)
    ensures Valid(k') && Clean(k')
    ensures k'.oldBuf == k.newBuf && k'.index == 0 && k'.column == 0 && !k'.enter
    ensures k'.newBuf == Zeros(MaxBuffer(k))
    ensures k'.termFlag == k.termFlag && k'.caps == k.caps && k'.shift == k.shift && k'.control == k.control
  {
    k.(oldBuf := k.newBuf, newBuf := Zeros(|k.newBuf|), index := 0, column := 0, enter := false)
  }

  /**
   * The flag updates of a key press, before the press is acted on. The source
   * tests the scancodes in an else-if chain; they are distinct, so at most one
   * of these updates takes effect.
   */
  function PressFlags(k: Keys, c: Byte): Keys
  {
    k.(caps := if c == CAPS_PRESS then !k.caps else k.caps,
       backspace := k.backspace || c == BACKSPACE_PRESS,
       enter := k.enter || c == ENTER_PRESS,
       termFlag := k.termFlag || c == ENTER_PRESS,
       control := k.control || c == CONTROL_PRESS,
       shift := k.shift || c == LEFT_SHIFT_PRESS || c == RIGHT_SHIFT_PRESS)
  }

  /**
   * handle_keyboard_interrupt for one scancode. A release (high bit set) only
   * clears shift or control; the caps test in that branch can never hold. A
   * press updates the flags, then: control-L resets the column (and clears the
   * screen), control otherwise swallows the key, a pending backspace or enter is
   * carried out, and anything else writes its table entry unless that is NUL.
   */
  function HandleScancode(k: Keys, c: Byte): (k': Keys)
    requires Valid(k)
    ensures Valid(k')
  {
    if c >= RELEASE_BIT then
      if c == LEFT_SHIFT_RELEASE || c == RIGHT_SHIFT_RELEASE then k.(shift := false)
      else if c == CONTROL_RELEASE then k.(control := false)
      else k
    else
      var k1 := PressFlags(k, c);
      Act(k1, c, TableEntry(k1.shift, k1.caps, c))
  }

  /**
   * What a key press does once its flags are updated; ch is the table entry for
   * the scancode under the current shift and caps.
   */
  function Act(k1: Keys, c: Byte, ch: char): (k': Keys)
    requires Valid(k1)
    ensures Valid(k')
  {
    if k1.control && c == L_PRESS then k1.(column := 0)
    else if k1.control then k1
    else if k1.backspace then BackspaceBuffer(k1)
    else if k1.enter then EnterBuffer(k1)
    else if ch != NUL then WriteToBuffer(k1, ch)
    else k1
  }

  /** A release never touches the line or the completed line and changes at most shift or control. */
  lemma ReleaseNeverWrites(k: Keys, c: Byte)
    requires Valid(k) && c >= RELEASE_BIT
    ensures var k' := HandleScancode(k, c);
      k'.newBuf == k.newBuf && k'.oldBuf == k.oldBuf && k'.index == k.index && k'.column == k.column
      && k'.caps == k.caps && k'.termFlag == k.termFlag && k'.enter == k.enter && k'.backspace == k.backspace
      && (k'.shift != k.shift ==> !k'.shift && (c == LEFT_SHIFT_RELEASE || c == RIGHT_SHIFT_RELEASE))
      && (k'.control != k.control ==> !k'.control && c == CONTROL_RELEASE)
  {
  }

  /** Caps lock toggles, and Enter raises the completed-line flag even with control held. */
  lemma PressFlagEffects(k: Keys)
    requires Valid(k)
    ensures HandleScancode(k, CAPS_PRESS).caps == !k.caps
    ensures HandleScancode(k, ENTER_PRESS).termFlag
  {
  }

  /**
   * An ordinary key press with no modifier-like pending flag writes the entry of
   * the table chosen by shift and caps, or nothing when that entry is NUL.
   */
  lemma OrdinaryKeyWritesTableEntry(k: Keys, c: Byte)
    requires Valid(k) && c < RELEASE_BIT && !k.control && !k.backspace && !k.enter
    requires c !in {CAPS_PRESS, BACKSPACE_PRESS, ENTER_PRESS, CONTROL_PRESS, LEFT_SHIFT_PRESS, RIGHT_SHIFT_PRESS}
    ensures var ch := TableEntry(k.shift, k.caps, c);
      HandleScancode(k, c) == if ch != NUL then WriteToBuffer(k, ch) else k
  {
  }

  /** While control is held only control-L does anything, and it resets the column. */
  lemma ControlSwallowsKeys(k: Keys, c: Byte)
    requires Valid(k) && k.control && c < RELEASE_BIT
    ensures HandleScancode(k, c).newBuf == k.newBuf && HandleScancode(k, c).index == k.index
    ensures c == L_PRESS ==> HandleScancode(k, c).column == 0
  {
  }

  /** Writing a character keeps the line clean past the typing position. */
  lemma WriteKeepsClean(k: Keys, ch: char)
    requires Valid(k) && Clean(k)
    ensures Clean(WriteToBuffer(k, ch))
  {
  }

  /** So does a backspace. */
  lemma BackspaceKeepsClean(k: Keys)
    requires Valid(k) && Clean(k)
    ensures Clean(BackspaceBuffer(k))
  {
  }

  /** Every scancode keeps the line clean past the typing position. */
  lemma HandleScancodeKeepsClean(k: Keys, c: Byte)
    requires Valid(k) && Clean(k)
    ensures Clean(HandleScancode(k, c))
  {
    if c < RELEASE_BIT {
      var k1 := PressFlags(k, c);
      PressFlagsKeepLine(k, c);
      ActKeepsClean(k1, c, TableEntry(k1.shift, k1.caps, c));
    } else {
      var k' := HandleScancode(k, c);
      assert k'.newBuf == k.newBuf && k'.index == k.index;
    }
  }

  /** The flag updates of a press leave the line and the typing position alone. */
  lemma PressFlagsKeepLine(k: Keys, c: Byte)
    ensures PressFlags(k, c).newBuf == k.newBuf && PressFlags(k, c).index == k.index
    ensures PressFlags(k, c).oldBuf == k.oldBuf
  {
  }

  /** Whatever character a key press carries, acting on it keeps the line clean. */
  lemma ActKeepsClean(k1: Keys, c: Byte, ch: char)
    requires Valid(k1) && Clean(k1)
    ensures Clean(Act(k1, c, ch))
  {
    BackspaceKeepsClean(k1);
    WriteKeepsClean(k1, ch);
  }

  /** Typing a character and then backspacing restores the editor exactly. */
  lemma WriteThenBackspace(k: Keys, ch: char)
    requires Valid(k) && Clean(k) && !k.backspace
    requires k.index < MaxBuffer(k) - 1 && k.column <= TERM_COLS - 1
    ensures BackspaceBuffer(WriteToBuffer(k, ch)) == k
  {
    var k' := BackspaceBuffer(WriteToBuffer(k, ch));
    assert k'.newBuf == k.newBuf[k.index := ch][k.index := NUL];
    assert k'.newBuf == k.newBuf;
  }

  /**
   * terminal_read once a line is complete (the busy wait before it is the
   * precondition): copies min(length, MAXBUFFER) characters of the completed
   * line, clears the typed line (but not the typing position) and lowers the
   * flag. A NULL buffer or negative length returns 0 at once.
   */
  function TerminalRead(k: Keys, bufNull: bool, length: int): (r: (int, seq<char>, Keys))
    requires Valid(k)
    requires !bufNull && length >= 0 ==> k.termFlag
    ensures bufNull || length < 0 ==> r == (0, [], k)
    ensures !bufNull && length >= 0 ==>
      r.0 == Min(length, MaxBuffer(k)) && r.1 == k.oldBuf[..r.0]
      && r.2 == k.(newBuf := Zeros(MaxBuffer(k)), termFlag := false)
  {
    if bufNull || length < 0 then (0, [], k)
    else
      var n := if length <= |k.newBuf| then length else |k.newBuf|;
      (n, k.oldBuf[..n], k.(newBuf := Zeros(|k.newBuf|), termFlag := false))
  }

  /** A line typed and entered is what the next read returns, padded with the NULs after it. */
  lemma EnterThenRead(k: Keys)
    requires Valid(k) && Clean(k) && !k.control && !k.backspace
    ensures var k' := HandleScancode(k, ENTER_PRESS);
      k'.termFlag && TerminalRead(k', false, MaxBuffer(k)).1 == k.newBuf
      && TerminalRead(k', false, MaxBuffer(k)).1[..k.index] == k.newBuf[..k.index]
  {
  }

  /**
   * terminal_write: 0 for a NULL buffer or negative length; otherwise the first
   * min(length, strlen) characters go to the screen and their number is returned.
   */
  function TerminalWrite(buf: Option<CString>, length: int): (r: (int, seq<char>))
    ensures buf.None? || length < 0 ==> r == (0, [])
    ensures buf.Some? && length >= 0 ==> r.0 == Min(length, |buf.value|) && r.1 == buf.value[..r.0]
  {
    if buf.None? || length < 0 then (0, [])
    else
      var n := if |buf.value| < length then |buf.value| else length;
      (n, buf.value[..n])
  }

  /** terminal_open and terminal_close do nothing and succeed. */
  function TerminalOpen(): int { 0 }
  function TerminalClose(): int { 0 }
}
