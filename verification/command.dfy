/**
 * The command line of execute: leading spaces, a file name running up to the
 * first space, then the arguments (everything after that one space, verbatim).
 * Also the filename buffer execute fills from the parse, as the code writes it
 * and as it is evidently meant to be written.
 */
module Command {
  import opened Common
  import FileSystem

  const SPACE: char := ' '

  /** Size of execute's filename buffer. */
  const NAME_BUFFER_SIZE: int := 32

  /** n spaces. */
  function Spaces(n: nat): (s: seq<char>)
    ensures |s| == n && forall j :: 0 <= j < n ==> s[j] == SPACE
  {
    seq(n, _ => SPACE)
  }

  /** Index of the first character at or after `from` that is not a space (the skip loop). */
  function SkipSpaces(cmd: seq<char>, from: nat): (r: nat)
    requires from <= |cmd|
    ensures from <= r <= |cmd|
    ensures forall j :: from <= j < r ==> cmd[j] == SPACE
    ensures r < |cmd| ==> cmd[r] != SPACE
    decreases |cmd| - from
  {
    if from == |cmd| || cmd[from] != SPACE then from else SkipSpaces(cmd, from + 1)
  }

  /** Index of the first space at or after `from`, or |cmd| when there is none (the search loop). */
  function FindSpace(cmd: seq<char>, from: nat): (r: nat)
    requires from <= |cmd|
    ensures from <= r <= |cmd|
    ensures forall j :: from <= j < r ==> cmd[j] != SPACE
    ensures r < |cmd| ==> cmd[r] == SPACE
    decreases |cmd| - from
  {
    if from == |cmd| || cmd[from] == SPACE then from else FindSpace(cmd, from + 1)
  }

  /**
   * A parsed command: how many spaces led, the file name, whether a space ended
   * the name, and the arguments after that space ("" when there was none).
   */
  datatype Parsed = Parsed(lead: nat, name: CString, hasSpace: bool, args: CString)

  /** The command a parse came from. */
  function Unparse(p: Parsed): (c: CString)
    ensures |c| == p.lead + |p.name| + (if p.hasSpace then 1 + |p.args| else 0)
  {
    var c := Spaces(p.lead) + p.name + (if p.hasSpace then [SPACE] + p.args else []);
    assert forall j :: 0 <= j < |c| ==> c[j] != NUL by {
      forall j | 0 <= j < |c| ensures c[j] != NUL {
        if p.lead <= j < p.lead + |p.name| {
          assert p.name[j - p.lead] in p.name;
        } else if p.hasSpace && j > p.lead + |p.name| {
          assert p.args[j - p.lead - |p.name| - 1] in p.args;
        }
      }
    }
    c
  }

  /** The shape every parse has: a name free of spaces, arguments only after a space. */
  predicate WellParsed(p: Parsed)
  {
    (forall j :: 0 <= j < |p.name| ==> p.name[j] != SPACE)
    && (!p.hasSpace ==> p.args == [])
    && (p.hasSpace ==> p.name != [])
  }

  /**
   * Step 1 of execute: None for a NULL command or a file name longer than 32
   * characters; otherwise the split, which gives the command back unchanged.
   */
  function ParseCommand(cmd: Option<CString>): (r: Option<Parsed>)
    ensures cmd.None? ==> r.None?
    ensures r.Some? ==> cmd.Some? && Unparse(r.value) == cmd.value && WellParsed(r.value)
                        && |r.value.name| <= FileSystem.MAX_DIRNAME_LEN
  {
    if cmd.None? then None
    else
      var c := cmd.value;
      var lead := SkipSpaces(c, 0);
      var i := FindSpace(c, lead);
      if i - lead > FileSystem.MAX_DIRNAME_LEN then None
      else Some(SplitAt(c, lead, i))
  }

  /** The split at the end of the leading spaces and at the first space after them. */
  function SplitAt(c: CString, lead: nat, i: nat): (p: Parsed)
    requires lead <= i <= |c|
    requires forall j :: 0 <= j < lead ==> c[j] == SPACE
    requires lead < |c| ==> c[lead] != SPACE
    requires forall j :: lead <= j < i ==> c[j] != SPACE
    requires i < |c| ==> c[i] == SPACE
    ensures p.lead == lead && |p.name| == i - lead
    ensures Unparse(p) == c && WellParsed(p)
  {
    SliceNoNul(c, lead, i);
    var name: CString := c[lead..i];
    var hasSpace := i < |c|;
    SliceNoNul(c, Min(i + 1, |c|), |c|);
    var args: CString := if hasSpace then c[i + 1..] else [];
    assert Spaces(lead) == c[..lead];
    CutAt(c, lead, i);
    Parsed(lead, name, hasSpace, args)
  }

  /** A piece of a string without NUL has none either. */
  lemma SliceNoNul(c: CString, a: nat, b: nat)
    requires a <= b <= |c|
    ensures NUL !in c[a..b]
  {
    assert forall x :: x in c[a..b] ==> x in c;
  }

  /** A command is the piece before `lead`, the piece up to `i`, and the rest after a space at `i`. */
  lemma CutAt(c: seq<char>, lead: nat, i: nat)
    requires lead <= i <= |c| && (i < |c| ==> c[i] == SPACE)
    ensures i < |c| ==> c == c[..lead] + c[lead..i] + ([SPACE] + c[i + 1..])
    ensures i == |c| ==> c == c[..lead] + c[lead..i] + []
  {
    if i < |c| {
      assert c[i..] == [SPACE] + c[i + 1..];
      assert c == c[..lead] + c[lead..i] + c[i..];
    } else {
      assert c == c[..lead] + c[lead..i];
    }
  }

  /** Where the parts of a parse sit in the command it comes from. */
  lemma UnparseParts(p: Parsed)
    requires WellParsed(p)
    ensures var c := Unparse(p); var end := p.lead + |p.name|;
      end <= |c|
      && (forall j :: 0 <= j < p.lead ==> c[j] == SPACE)
      && (p.lead < |c| ==> c[p.lead] != SPACE)
      && (forall j :: p.lead <= j < end ==> c[j] != SPACE)
      && c[p.lead..end] == p.name
      && (p.hasSpace ==> end < |c| && c[end] == SPACE && c[end + 1..] == p.args)
      && (!p.hasSpace ==> end == |c|)
  {
    var c := Unparse(p);
    var end := p.lead + |p.name|;
    var tail := if p.hasSpace then [SPACE] + p.args else [];
    assert c == Spaces(p.lead) + p.name + tail;
    assert c[p.lead..end] == p.name;
    assert forall j :: p.lead <= j < end ==> c[j] == p.name[j - p.lead];
    if p.hasSpace {
      assert c[end..] == tail;
    }
  }

  /**
   * Parsing is the inverse of Unparse: any well-shaped split with a name of at
   * most 32 characters is exactly what the parse recovers, and a longer name is
   * refused.
   */
  lemma ParseUnparse(p: Parsed)
    requires WellParsed(p)
    ensures |p.name| <= FileSystem.MAX_DIRNAME_LEN ==> ParseCommand(Some(Unparse(p))) == Some(p)
    ensures |p.name| > FileSystem.MAX_DIRNAME_LEN ==> ParseCommand(Some(Unparse(p))) == None
  {
    var c := Unparse(p);
    var end := p.lead + |p.name|;
    UnparseParts(p);
    SkipSpacesStops(c, p.lead);
    FindSpaceStops(c, p.lead, end);
    if |p.name| <= FileSystem.MAX_DIRNAME_LEN {
      var q := SplitAt(c, p.lead, end);
      assert q.name == c[p.lead..end] == p.name;
      assert q.hasSpace == p.hasSpace;
      assert q.args == p.args;
    }
  }

  lemma SkipSpacesStops(c: seq<char>, n: nat)
    requires n <= |c| && (forall j :: 0 <= j < n ==> c[j] == SPACE) && (n < |c| ==> c[n] != SPACE)
    ensures SkipSpaces(c, 0) == n
  {
  }

  lemma FindSpaceStops(c: seq<char>, from: nat, n: nat)
    requires from <= n <= |c|
    requires (forall j :: from <= j < n ==> c[j] != SPACE) && (n < |c| ==> c[n] == SPACE)
    ensures FindSpace(c, from) == n
  {
  }

  /** The arguments are the command after the first space that follows the name, kept verbatim. */
  lemma ArgumentsAreSuffix(c: CString, i: nat)
    requires ParseCommand(Some(c)).Some?
    requires i < |c| && c[i] == SPACE && i >= SkipSpaces(c, 0)
    requires forall j :: SkipSpaces(c, 0) <= j < i ==> c[j] != SPACE
    ensures ParseCommand(Some(c)).value.args == c[i + 1..]
  {
    FindSpaceStops(c, SkipSpaces(c, 0), i);
  }

  // ---------------------------------------------------------------------------
  // The filename buffer

  /** The memory at the buffer after a set of byte stores over its previous contents. */
  function Overlay(stale: seq<char>, stores: map<int, char>): (m: seq<char>)
    ensures |m| == |stale|
    ensures forall k :: 0 <= k < |stale| ==> m[k] == (if k in stores then stores[k] else stale[k])
  {
    seq(|stale|, k requires 0 <= k < |stale| => if k in stores then stores[k] else stale[k])
  }

  /** The stores that copy the name characters to positions 0 .. |name| - 1. */
  function NameChars(name: seq<char>): (m: map<int, char>)
    ensures forall k :: k in m <==> 0 <= k < |name|
    ensures forall k :: 0 <= k < |name| ==> m[k] == name[k]
  {
    map k | 0 <= k < |name| :: name[k]
  }

  /**
   * The filename stores execute makes as written: the name, then a NUL at index
   * i, the position of the space in the whole command, rather than at the end of
   * the name; without a space strcpy puts the NUL right after the name.
   */
  function NameStoresAsWritten(p: Parsed): (m: map<int, char>)
    ensures forall k :: 0 <= k < |p.name| ==> k in m && m[k] == p.name[k]
    ensures p.hasSpace ==> p.lead + |p.name| in m && m[p.lead + |p.name|] == NUL
    ensures !p.hasSpace ==> |p.name| in m && m[|p.name|] == NUL
  {
    NameChars(p.name)[(if p.hasSpace then p.lead + |p.name| else |p.name|) := NUL]
  }

  /** The stores the code evidently intends: the name, then its NUL right after it. */
  function NameStores(p: Parsed): (m: map<int, char>)
    ensures forall k :: k in m <==> 0 <= k <= |p.name|
  {
    NameChars(p.name)[|p.name| := NUL]
  }

  /** The C string the lookup sees in a buffer: everything before its first NUL. */
  function ReadBack(buffer: seq<char>): (s: seq<char>)
    ensures |s| <= |buffer| && s == buffer[..|s|]
    ensures NUL !in s
    ensures |s| < |buffer| ==> buffer[|s|] == NUL
  {
    if buffer == [] || buffer[0] == NUL then []
    else
      var rest := ReadBack(buffer[1..]);
      assert [buffer[0]] + rest == buffer[..1 + |rest|];
      [buffer[0]] + rest
  }

  /** ReadBack finds the first NUL: a prefix without NUL followed by a NUL is what it reads. */
  lemma {:induction false} ReadBackStopsAtNul(buffer: seq<char>, n: nat)
    requires n < |buffer| && NUL !in buffer[..n] && buffer[n] == NUL
    ensures ReadBack(buffer) == buffer[..n]
  {
    if n > 0 {
      assert buffer[0] == buffer[..n][0];
      assert buffer[1..][..n - 1] == buffer[1..n];
      assert forall x :: x in buffer[1..n] ==> x in buffer[..n];
      ReadBackStopsAtNul(buffer[1..], n - 1);
    }
  }

  /**
   * With the intended stores, a buffer of 33 bytes receives the name and its NUL
   * in bounds, and the lookup reads back exactly the name, whatever the buffer
   * held before.
   */
  lemma NameStoresReadBack(p: Parsed, stale: seq<char>)
    requires |p.name| <= FileSystem.MAX_DIRNAME_LEN && |stale| == NAME_BUFFER_SIZE + 1
    ensures forall k :: k in NameStores(p) ==> 0 <= k < |stale|
    ensures ReadBack(Overlay(stale, NameStores(p))) == p.name
  {
    var b := Overlay(stale, NameStores(p));
    assert b[..|p.name|] == p.name;
    ReadBackStopsAtNul(b, |p.name|);
  }

  /**
   * The misplaced terminator in action: for " ls x" with a buffer that held 'x'
   * bytes, the lookup is asked for "lsx" instead of "ls".
   */
  lemma NameTerminatorMisplaced()
    ensures var p := ParseCommand(Some(" ls x")).value;
      var b := Overlay(seq(NAME_BUFFER_SIZE, _ => 'x'), NameStoresAsWritten(p));
      p.name == "ls" && ReadBack(b) == "lsx"
  {
    var p := Parsed(1, "ls", true, "x");
    assert Unparse(p) == " ls x";
    ParseUnparse(p);
    var b := Overlay(seq(NAME_BUFFER_SIZE, _ => 'x'), NameStoresAsWritten(p));
    assert b[..3] == "lsx" && b[3] == NUL;
    ReadBackStopsAtNul(b, 3);
  }

  /**
   * A 32-character name with no space passes the length check, and the copy
   * stores its NUL at index 32, one past the end of the 32-byte buffer.
   */
  lemma LongNameOverrunsBuffer()
    ensures var p := ParseCommand(Some(seq(32, _ => 'a'))).value;
      NAME_BUFFER_SIZE in NameStoresAsWritten(p)
  {
    var p := Parsed(0, seq(32, _ => 'a'), false, []);
    assert Unparse(p) == seq(32, _ => 'a');
    ParseUnparse(p);
  }
}
